/**
 * Bytes and NUL-terminated C strings, and the two C library routines the
 * bridge leans on: `strlen` and the precision-bounded `%.*s` conversion.
 */
module CStrings {

  newtype Byte = b: int | 0 <= b < 256

  const NUL: Byte := 0x00
  /** Start of text: the first byte of every RS-232 frame. */
  const STX: Byte := 0x02
  /** Carriage return: the last byte of every RS-232 frame. */
  const CR: Byte := 0x0D
  /** The single quote that separates the fields of a frame. */
  const QUOTE: Byte := 0x27

  /** The contents of a C string: the bytes before its terminating NUL. */
  type CString = s: seq<Byte> | NUL !in s

  /** `strlen`: the index of the first NUL, or the whole length when there is none. */
  function StrLen(s: seq<Byte>): (n: nat)
    ensures n <= |s|
    ensures NUL !in s[..n]
    ensures n < |s| ==> s[n] == NUL
  {
    if s == [] || s[0] == NUL then 0
    else
      var m := StrLen(s[1..]);
      assert s[..1 + m] == [s[0]] + s[1..][..m];
      1 + m
  }

  /** `strlen` of a buffer that holds a C string followed by its NUL is that string's length. */
  lemma StrLenOfTerminated(s: seq<Byte>, t: CString)
    requires |t| < |s| && s[..|t| + 1] == t + [NUL]
    ensures StrLen(s) == |t|
  {
    var n := StrLen(s);
    assert s[|t|] == NUL;
    forall i | 0 <= i < |t|
      ensures s[i] != NUL
    {
      assert s[i] == t[i] && t[i] in t;
    }
  }

  /**
   * The `%.*s` conversion with precision `limit`: the bytes of `src` up to,
   * and not including, the first NUL, but never more than `limit` of them.
   * The ensures clauses characterise the result completely: it is the longest
   * NUL-free prefix of `src` that is at most `limit` long.
   */
  function CopyBounded(src: seq<Byte>, limit: nat): (r: CString)
    ensures |r| <= limit && |r| <= |src|
    ensures r == src[..|r|]
    ensures |r| == limit || |r| == |src| || src[|r|] == NUL
  {
    if limit == 0 || src == [] || src[0] == NUL then []
    else
      var rest := CopyBounded(src[1..], limit - 1);
      assert [src[0]] + rest == src[..1 + |rest|];
      [src[0]] + rest
  }

  /** The copy is the source cut at its first NUL, after it is cut to the limit. */
  lemma {:induction false} CopyBoundedIsCutPrefix(src: seq<Byte>, limit: nat)
    ensures var p := src[..if limit < |src| then limit else |src|];
            CopyBounded(src, limit) == p[..StrLen(p)]
  {
  }
}
