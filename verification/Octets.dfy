/** Octets and little-endian numbers, as the wire formats use them. */
module Octets {
  type Octet = x: int | 0 <= x < 256
  type Text = seq<Octet>

  function Le(s: Text): (n: nat) {
    if s == [] then 0 else s[0] + 256 * Le(s[1..])
  }

  function ToLe(n: nat, width: nat): (s: Text)
    ensures |s| == width
  {
    if width == 0 then [] else [n % 256] + ToLe(n / 256, width - 1)
  }

  function Power256(k: nat): (p: nat)
    ensures p > 0
  {
    if k == 0 then 1 else 256 * Power256(k - 1)
  }

  lemma {:induction false} LeRoundTrip(n: nat, width: nat)
    requires n < Power256(width)
    ensures Le(ToLe(n, width)) == n
  {
    if width > 0 {
      LeRoundTrip(n / 256, width - 1);
      assert ToLe(n, width)[1..] == ToLe(n / 256, width - 1);
    }
  }

  lemma {:induction false} LeBound(s: Text)
    ensures Le(s) < Power256(|s|)
  {
    if s != [] {
      LeBound(s[1..]);
    }
  }
}
