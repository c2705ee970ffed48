// Bytes, 64-bit little-endian words and the small containers shared by the other modules.
module Bytes {

  newtype byte = b: int | 0 <= b < 256

  datatype Option<+T> = None | Some(value: T)

  datatype Result<+T, +E> = Ok(value: T) | Err(error: E)

  const WORD := 0x1_0000_0000_0000_0000

  /** A value that fits an unsigned 64-bit word. */
  predicate IsWord(v: int) {
    0 <= v < WORD
  }

  /** Python's `v.to_bytes(n, 'little')`, for values that fit. */
  function Le(v: nat, n: nat): (s: seq<byte>)
    ensures |s| == n
  {
    if n == 0 then [] else [(v % 256) as byte] + Le(v / 256, n - 1)
  }

  /** The value of a little-endian byte string. */
  function FromLe(s: seq<byte>): nat {
    if s == [] then 0 else s[0] as nat + 256 * FromLe(s[1..])
  }

  function Pow256(n: nat): (p: nat)
    ensures p > 0
  {
    if n == 0 then 1 else 256 * Pow256(n - 1)
  }

  /** Writing n bytes keeps the value modulo 256^n. */
  lemma {:induction false} LeRoundTrip(v: nat, n: nat)
    requires v < Pow256(n)
    ensures FromLe(Le(v, n)) == v
  {
    if n > 0 {
      LeRoundTrip(v / 256, n - 1);
      assert Le(v, n)[1..] == Le(v / 256, n - 1);
    }
  }

  /** Reading n bytes and writing them back changes nothing. */
  lemma {:induction false} FromLeRoundTrip(s: seq<byte>)
    ensures Le(FromLe(s), |s|) == s && FromLe(s) < Pow256(|s|)
  {
    if s != [] {
      FromLeRoundTrip(s[1..]);
      assert FromLe(s) % 256 == s[0] as nat && FromLe(s) / 256 == FromLe(s[1..]);
      assert s == [s[0]] + s[1..];
    }
  }

  /** The first w bytes of a longer encoding are the encoding at width w. */
  lemma {:induction false} LePrefix(v: nat, n: nat, w: nat)
    requires w <= n
    ensures Le(v, n)[..w] == Le(v, w)
  {
    if w > 0 {
      LePrefix(v / 256, n - 1, w - 1);
      assert Le(v, n)[..w] == [(v % 256) as byte] + Le(v / 256, n - 1)[..w - 1];
    }
  }

  lemma WordIsEightBytes()
    ensures Pow256(8) == WORD
  {
    assert Pow256(4) == 0x1_0000_0000;
    assert Pow256(6) == 0x1_0000_0000_0000;
  }

  /** A 64-bit word survives to_bytes(8) followed by a little-endian load. */
  lemma WordRoundTrip(v: nat)
    requires IsWord(v)
    ensures FromLe(Le(v, 8)) == v
  {
    WordIsEightBytes();
    LeRoundTrip(v, 8);
  }

  function Zeros(n: nat): (s: seq<byte>)
    ensures |s| == n
    ensures forall i :: 0 <= i < n ==> s[i] == 0
  {
    seq(n, _ => 0)
  }

  /** Python's `b''.join(parts)`. */
  function Join(parts: seq<seq<byte>>): seq<byte> {
    if parts == [] then [] else parts[0] + Join(parts[1..])
  }

  lemma {:induction false} JoinAppend(parts: seq<seq<byte>>, last: seq<byte>)
    ensures Join(parts + [last]) == Join(parts) + last
  {
    if parts == [] {
      assert parts + [last] == [last];
      assert Join([last]) == last + Join([]);
    } else {
      assert (parts + [last])[1..] == parts[1..] + [last];
      JoinAppend(parts[1..], last);
    }
  }

  /** Equal-length parts: part i of the join starts at i * n. */
  lemma {:induction false} JoinLength(parts: seq<seq<byte>>, n: nat)
    requires forall p :: p in parts ==> |p| == n
    ensures |Join(parts)| == |parts| * n
  {
    if parts != [] {
      var rest := parts[1..];
      JoinLength(rest, n);
      assert |parts[0]| == n;
      OneMore(|rest|, n);
    }
  }

  lemma OneMore(k: nat, n: nat)
    ensures (k + 1) * n == n + k * n
  {
  }
}
