/** The terminal's growable string buffer (`str_t`): the characters before the
    terminating NUL, plus the allocated capacity `buf_len`. */
module StrBuf {

  const NUL: char := '\0'

  /** The C string starting at the beginning of `s`: everything before the
      first NUL (what strlen measures and strcpy copies). */
  function CStr(s: seq<char>): (r: seq<char>)
    ensures NUL !in r
    ensures |r| <= |s| && r == s[..|r|]
    ensures |r| < |s| ==> s[|r|] == NUL
    ensures NUL !in s ==> r == s
  {
    if |s| == 0 || s[0] == NUL then []
    else
      var rest := CStr(s[1..]);
      assert s[1..][..|rest|] == s[1..|rest| + 1];
      [s[0]] + rest
  }

  /** A buffer: `len` is |text|; `buf_len` is the capacity in bytes. */
  datatype Str = Str(text: seq<char>, bufLen: nat)

  /** The text holds no NUL and leaves room for its terminator. */
  predicate Valid(s: Str) {
    NUL !in s.text && |s.text| < s.bufLen
  }

  /** str_new: a copy of the C string `s` with exactly enough room for it and
      its terminator. */
  function StrNew(s: seq<char>): (r: Str)
    ensures Valid(r)
    ensures r.text == CStr(s)
    ensures NUL !in s ==> r.text == s
    ensures r.bufLen == |r.text| + 1
  {
    var size := |CStr(s)| + 1;
    Str(CStr(s), size)
  }

  /** str_append: the text grows by the C string `t`. The buffer is
      reallocated only when text and terminator no longer fit, and then to
      twice what they need. */
  function StrAppend(s: Str, t: seq<char>): (r: Str)
    requires Valid(s)
    ensures Valid(r)
    ensures r.text == s.text + CStr(t)
    ensures |r.text| < s.bufLen ==> r.bufLen == s.bufLen
    ensures |r.text| >= s.bufLen ==> r.bufLen == 2 * (|r.text| + 1)
    ensures r.bufLen >= s.bufLen
  {
    var needed := |CStr(t)| + |s.text| + 1;
    var bufLen := if needed > s.bufLen then 2 * needed else s.bufLen;
    Str(s.text + CStr(t), bufLen)
  }

  /** Cutting `k` characters off the end by writing a NUL over the first of
      them and lowering `len`; the allocation is kept. */
  function Truncate(s: Str, k: nat): (r: Str)
    requires Valid(s) && k <= |s.text|
    ensures Valid(r)
    ensures |r.text| + k == |s.text|
    ensures r.text + s.text[|r.text|..] == s.text
    ensures r.bufLen == s.bufLen
  {
    Str(s.text[..|s.text| - k], s.bufLen)
  }

  /** Appending a C string and truncating by its length restores the text. */
  lemma AppendThenTruncate(s: Str, t: seq<char>)
    requires Valid(s)
    ensures Truncate(StrAppend(s, t), |CStr(t)|).text == s.text
    ensures Truncate(StrAppend(s, t), |CStr(t)|).bufLen >= s.bufLen
  {
    var a := StrAppend(s, t);
    assert a.text[..|a.text| - |CStr(t)|] == s.text;
  }

  /** Two appends give the same text as one append of the concatenation, when
      the first piece holds no NUL. */
  lemma AppendAppend(s: Str, a: seq<char>, b: seq<char>)
    requires Valid(s) && NUL !in a
    ensures StrAppend(StrAppend(s, a), b).text == StrAppend(s, a + b).text
  {
    CStrConcat(a, b);
  }

  /** A NUL-free prefix passes straight through CStr. */
  lemma {:induction false} CStrConcat(a: seq<char>, b: seq<char>)
    requires NUL !in a
    ensures CStr(a + b) == a + CStr(b)
  {
    if |a| > 0 {
      assert (a + b)[0] == a[0];
      assert (a + b)[1..] == a[1..] + b;
      CStrConcat(a[1..], b);
      assert a == [a[0]] + a[1..];
    } else {
      assert a + b == b;
    }
  }
}
