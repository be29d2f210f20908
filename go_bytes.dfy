/** Go strings and byte slices, and the two `strings` operations the proxy uses on them.
    A Go string is a sequence of bytes: `len` counts bytes and `s[:n]` cuts bytes. */
module GoBytes {

  newtype byte = b: int | 0 <= b < 256

  /** A Go `string`. */
  type Str = seq<byte>

  /** A Go `[]byte`; `[]byte(s)` of a string `s` is `s` itself. */
  type Bytes = seq<byte>

  /** The bytes of a Dafny string literal, one byte per character (only ASCII literals are used). */
  function Ascii(s: string): (r: Str)
    ensures |r| == |s|
  {
    seq(|s|, i requires 0 <= i < |s| => (s[i] as int % 256) as byte)
  }

  const Star: byte := 42        // '*'
  const Dot: byte := 46         // '.'
  const Slash: byte := 47       // '/'
  const Underscore: byte := 95  // '_'

  /** Number of occurrences of `c` in `s`. */
  function Count(s: Str, c: byte): (n: nat)
    ensures n <= |s|
    ensures n == 0 <==> c !in s
  {
    if s == [] then 0 else (if s[0] == c then 1 else 0) + Count(s[1..], c)
  }

  /** `strings.ReplaceAll(s, old, rep)` for a one-byte `old`, the only form the proxy uses
      (`"*"` and `"/"`): every occurrence of `c` in `s` becomes `rep`, left to right. */
  function ReplaceAll(s: Str, c: byte, rep: Str): (r: Str)
    ensures |r| + Count(s, c) == |s| + Count(s, c) * |rep|
  {
    if s == [] then []
    else (if s[0] == c then rep else [s[0]]) + ReplaceAll(s[1..], c, rep)
  }

  /** A string without `c` is left unchanged. */
  lemma {:induction false} ReplaceAllWithout(s: Str, c: byte, rep: Str)
    requires c !in s
    ensures ReplaceAll(s, c, rep) == s
  {
    if s != [] {
      assert s[0] != c;
      ReplaceAllWithout(s[1..], c, rep);
      assert s == [s[0]] + s[1..];
    }
  }

  /** When the replacement does not contain `c`, no `c` is left. */
  lemma {:induction false} ReplaceAllRemoves(s: Str, c: byte, rep: Str)
    requires c !in rep
    ensures c !in ReplaceAll(s, c, rep)
  {
    if s != [] {
      ReplaceAllRemoves(s[1..], c, rep);
    }
  }

  /** Replacing `c` by `d c` (with `d != c`) leaves every `c` directly preceded by `d`,
      and the result never starts with `c`. */
  lemma {:induction false} ReplaceAllPrefixes(s: Str, c: byte, d: byte)
    requires d != c
    ensures var r := ReplaceAll(s, c, [d, c]);
      (r != [] ==> r[0] != c) &&
      forall i | 0 <= i < |r| && r[i] == c :: 0 < i && r[i - 1] == d
  {
    if s != [] {
      var head: Str := if s[0] == c then [d, c] else [s[0]];
      var rest := ReplaceAll(s[1..], c, [d, c]);
      ReplaceAllPrefixes(s[1..], c, d);
      var r := ReplaceAll(s, c, [d, c]);
      assert r == head + rest;
      forall i | 0 <= i < |r| && r[i] == c
        ensures 0 < i && r[i - 1] == d
      {
        if i >= |head| {
          var j := i - |head|;
          assert rest[j] == c;
          assert 0 < j;
          assert r[i - 1] == rest[j - 1];
        }
      }
    }
  }

  /** The wildcard rewrite of URI patterns: `strings.ReplaceAll(uri, "*", ".*")`. */
  function ExpandWildcards(uri: Str): (r: Str)
    ensures |r| == |uri| + Count(uri, Star)
    ensures forall i | 0 <= i < |r| && r[i] == Star :: 0 < i && r[i - 1] == Dot
    ensures Star !in uri ==> r == uri
  {
    ReplaceAllPrefixes(uri, Star, Dot);
    if Star in uri then ReplaceAll(uri, Star, [Dot, Star])
    else ReplaceAllWithout(uri, Star, [Dot, Star]); ReplaceAll(uri, Star, [Dot, Star])
  }

  /** `s[:n]` when `len(s) > n`, otherwise `s`. */
  function Truncate(s: Str, n: nat): (r: Str)
    ensures |r| == if |s| > n then n else |s|
    ensures r <= s
  {
    if |s| > n then s[..n] else s
  }
}
