/**
 * UTF-8 byte lengths of strings and truncation of a string to a byte budget.
 * A Dafny `char` is a Unicode scalar value, so a prefix of a string never splits
 * a code point.
 */
module ByteLimit {

  /** Bytes UTF-8 uses to encode one code point. */
  function CharBytes(c: char): (n: nat)
    ensures 1 <= n <= 4
    ensures n == 1 <==> c as int < 0x80
  {
    if c as int < 0x80 then 1
    else if c as int < 0x800 then 2
    else if c as int < 0x1_0000 then 3
    else 4
  }

  /** The UTF-8 byte length of `s` (what `Buffer.byteLength` reports). */
  function ByteLength(s: string): (n: nat)
    ensures |s| <= n <= 4 * |s|
  {
    if s == [] then 0 else CharBytes(s[0]) + ByteLength(s[1..])
  }

  predicate IsAscii(s: string) {
    forall i :: 0 <= i < |s| ==> s[i] as int < 0x80
  }

  lemma {:induction false} ByteLengthConcat(a: string, b: string)
    ensures ByteLength(a + b) == ByteLength(a) + ByteLength(b)
  {
    if a == [] {
      assert a + b == b;
    } else {
      assert (a + b)[1..] == a[1..] + b;
      ByteLengthConcat(a[1..], b);
    }
  }

  /** A longer prefix never takes fewer bytes. */
  lemma PrefixByteLength(p: string, s: string)
    requires p <= s
    ensures ByteLength(p) <= ByteLength(s)
  {
    assert s == p + s[|p|..];
    ByteLengthConcat(p, s[|p|..]);
  }

  /** For ASCII text, bytes and characters coincide. */
  lemma {:induction false} AsciiByteLength(s: string)
    requires IsAscii(s)
    ensures ByteLength(s) == |s|
  {
    if s != [] {
      AsciiByteLength(s[1..]);
    }
  }

  /**
   * The longest prefix of `s` whose encoding fits in `limit` bytes: the result
   * is a prefix, it fits, and one more character would not fit.
   */
  function Truncate(s: string, limit: nat): (r: string)
    ensures r <= s
    ensures ByteLength(r) <= limit
    ensures r == s || ByteLength(s[..|r| + 1]) > limit
  {
    if s == [] then []
    else if CharBytes(s[0]) > limit then
      assert s[..1][1..] == [];
      []
    else
      var rest := Truncate(s[1..], limit - CharBytes(s[0]));
      assert ([s[0]] + rest)[1..] == rest;
      assert rest != s[1..] ==> s[..|rest| + 2][1..] == s[1..][..|rest| + 1];
      [s[0]] + rest
  }

  /** A string that already fits is returned unchanged. */
  lemma TruncateFitting(s: string, limit: nat)
    requires ByteLength(s) <= limit
    ensures Truncate(s, limit) == s
  {
    var r := Truncate(s, limit);
    if r != s {
      PrefixByteLength(s[..|r| + 1], s);
    }
  }

  /**
   * No prefix longer than the truncation fits: the truncation is the longest
   * fitting prefix.
   */
  lemma TruncateLongest(s: string, limit: nat, p: string)
    requires p <= s && ByteLength(p) <= limit
    ensures |p| <= |Truncate(s, limit)|
  {
    var r := Truncate(s, limit);
    if |p| > |r| {
      PrefixByteLength(s[..|r| + 1], p);
    }
  }

  /** An ASCII string over the budget is cut to exactly `limit` bytes. */
  lemma TruncateAsciiExact(s: string, limit: nat)
    requires IsAscii(s) && ByteLength(s) > limit
    ensures ByteLength(Truncate(s, limit)) == limit
  {
    var r := Truncate(s, limit);
    AsciiByteLength(s);
    assert IsAscii(r);
    AsciiByteLength(r);
    assert IsAscii(s[..|r| + 1]);
    AsciiByteLength(s[..|r| + 1]);
  }
}
