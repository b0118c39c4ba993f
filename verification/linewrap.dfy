/** How the terminal breaks its text into screen lines: a line ends at a line
    feed, and a line longer than the window is wrapped after `max_col`
    characters. */
module LineWrap {
  import StrBuf

  const LF: char := '\n'

  const TWidth: nat := 400
  const THeight: nat := 254
  const CharWidth: nat := 8
  const CharHeight: nat := 16
  /** Characters per screen line: 400 / 8 - 1 = 49. */
  const MaxCol: nat := TWidth / CharWidth - 1
  /** Screen lines shown: 254 / 16 - 1 = 14. */
  const MaxLine: nat := THeight / CharHeight - 1

  /** No line feed among text[a..b]. */
  predicate NoLF(text: seq<char>, a: nat, b: nat)
    requires a <= b <= |text|
  {
    forall k :: a <= k < b ==> text[k] != LF
  }

  /** strchrnul(text + v, '\n') on NUL-free text: the first line feed at or
      after `v`, or the terminator at |text|. */
  function LineEnd(text: seq<char>, v: nat): (r: nat)
    requires v <= |text| && StrBuf.NUL !in text
    ensures v <= r <= |text|
    ensures NoLF(text, v, r)
    ensures r < |text| ==> text[r] == LF
    decreases |text| - v
  {
    if v == |text| || text[v] == LF then v else LineEnd(text, v + 1)
  }

  /** The screen line starting at `v` ends just before `next`: either a
      line of at most MaxCol characters together with the line feed (or
      terminator) that closes it, or the first MaxCol characters of a line
      that is longer than MaxCol. */
  predicate WrappedLine(text: seq<char>, v: nat, next: nat)
    requires v <= |text|
  {
    || (&& v < next <= |text| + 1
        && next - 1 - v <= MaxCol
        && NoLF(text, v, next - 1)
        && (next - 1 == |text| || text[next - 1] == LF))
    || (&& next == v + MaxCol
        && v + MaxCol < |text|
        && NoLF(text, v, v + MaxCol + 1))
  }

  /** A screen line has only one end. */
  lemma WrappedLineUnique(text: seq<char>, v: nat, n1: nat, n2: nat)
    requires v <= |text|
    requires WrappedLine(text, v, n1) && WrappedLine(text, v, n2)
    ensures n1 == n2
  {
  }

  /** scroll_view: where the text continues once the screen line starting at
      `v` is discarded. On a last line of at most MaxCol characters without a
      line feed this is one past the terminator, as in the C code. */
  function ScrollView(text: seq<char>, v: nat): (r: nat)
    requires v <= |text| && StrBuf.NUL !in text
    ensures WrappedLine(text, v, r)
    ensures v < r <= |text| + 1
    ensures r - v <= MaxCol + 1
  {
    var lf := LineEnd(text, v);
    var lineLen := lf - v;
    if lineLen <= MaxCol then lf + 1 else v + MaxCol
  }

  /** The number of screen lines from `v` to the end of the text. */
  function LinesFrom(text: seq<char>, v: nat): nat
    requires StrBuf.NUL !in text
    decreases |text| + 1 - v
  {
    if v >= |text| then 0 else 1 + LinesFrom(text, ScrollView(text, v))
  }

  /** count_lines: walk the text a screen line at a time. */
  method CountLines(text: seq<char>) returns (n: nat)
    requires StrBuf.NUL !in text
    ensures n == LinesFrom(text, 0)
    ensures n <= |text| <= (MaxCol + 1) * n
    ensures n == 0 <==> |text| == 0
  {
    assert MaxCol + 1 == 50;
    var view: nat := 0;
    n := 0;
    while view < |text|
      invariant n + LinesFrom(text, view) == LinesFrom(text, 0)
      invariant n <= view && n <= |text|
      invariant view <= 50 * n
      invariant view <= |text| + 1
      invariant view > 0 ==> n > 0
      decreases |text| + 1 - view
    {
      var lf := LineEnd(text, view);
      var lineLen := lf - view;
      if lineLen <= MaxCol {
        view := view + lineLen + 1;
      } else {
        view := view + MaxCol;
      }
      n := n + 1;
    }
  }

  /** LineEnd and ScrollView only look at the text from `v` on. */
  lemma {:induction false} LineEndShift(text: seq<char>, v: nat, w: nat)
    requires v <= w <= |text| && StrBuf.NUL !in text
    ensures LineEnd(text, w) == v + LineEnd(text[v..], w - v)
    decreases |text| - w
  {
    if w < |text| {
      assert text[v..][w - v] == text[w];
      if text[w] != LF {
        LineEndShift(text, v, w + 1);
      }
    }
  }

  lemma ScrollViewShift(text: seq<char>, v: nat, w: nat)
    requires v <= w <= |text| && StrBuf.NUL !in text
    ensures ScrollView(text, w) == v + ScrollView(text[v..], w - v)
  {
    LineEndShift(text, v, w);
  }

  /** Counting from a view into the text is counting the suffix. */
  lemma {:induction false} LinesFromShift(text: seq<char>, v: nat, w: nat)
    requires v <= |text| && v <= w && StrBuf.NUL !in text
    ensures LinesFrom(text, w) == LinesFrom(text[v..], w - v)
    decreases |text| + 1 - w
  {
    if w < |text| {
      ScrollViewShift(text, v, w);
      LinesFromShift(text, v, ScrollView(text, w));
    }
  }

  /** Discarding one screen line with scroll_view leaves a suffix that
      count_lines finds to hold exactly one line fewer. */
  lemma ScrollDropsOneLine(text: seq<char>)
    requires |text| > 0 && StrBuf.NUL !in text
    ensures var r := ScrollView(text, 0);
              r <= |text| ==> LinesFrom(text[r..], 0) + 1 == LinesFrom(text, 0)
  {
    var r := ScrollView(text, 0);
    if r <= |text| {
      LinesFromShift(text, r, r);
    }
  }

  /** The characters redraw copies into `line_buf` for the screen line
      starting at `v`: the whole line up to its line feed or the end of the
      text when it has at most MaxCol characters, otherwise its first MaxCol
      characters. */
  function LineText(text: seq<char>, v: nat): (line: seq<char>)
    requires v <= |text| && StrBuf.NUL !in text
    ensures |line| <= MaxCol && v + |line| <= |text|
    ensures LF !in line
    ensures line == text[v..v + |line|]
    ensures v + |line| == LineEnd(text, v) || (|line| == MaxCol && v + MaxCol < LineEnd(text, v))
  {
    var lf := LineEnd(text, v);
    var lineLen := lf - v;
    var line := if lineLen <= MaxCol then text[v..lf] else text[v..v + MaxCol];
    assert forall k :: 0 <= k < |line| ==> line[k] == text[v + k];
    line
  }

  /** The text without its line feeds. */
  function DropLF(s: seq<char>): (r: seq<char>)
    ensures LF !in r
  {
    if |s| == 0 then [] else (if s[0] == LF then [] else [s[0]]) + DropLF(s[1..])
  }

  lemma {:induction false} DropLFConcat(a: seq<char>, b: seq<char>)
    ensures DropLF(a + b) == DropLF(a) + DropLF(b)
  {
    if |a| > 0 {
      assert (a + b)[0] == a[0];
      assert (a + b)[1..] == a[1..] + b;
      DropLFConcat(a[1..], b);
    } else {
      assert a + b == b;
    }
  }

  lemma {:induction false} DropLFNoLF(s: seq<char>)
    requires LF !in s
    ensures DropLF(s) == s
  {
    if |s| > 0 {
      DropLFNoLF(s[1..]);
    }
  }

  /** All lines, one after the other. */
  function Flatten(lines: seq<seq<char>>): seq<char> {
    if |lines| == 0 then [] else lines[0] + Flatten(lines[1..])
  }

  /** The text from `v` on; nothing once `v` is past its end. */
  function Rest(text: seq<char>, v: nat): seq<char> {
    if v <= |text| then text[v..] else []
  }

  /** The screen lines redraw draws from `v` on, top to bottom: as many as
      count_lines counts, and together they are exactly the remaining text
      with its line feeds taken out. */
  function DrawnLines(text: seq<char>, v: nat): (lines: seq<seq<char>>)
    requires StrBuf.NUL !in text
    ensures |lines| == LinesFrom(text, v)
    ensures forall i :: 0 <= i < |lines| ==> |lines[i]| <= MaxCol && LF !in lines[i]
    ensures Flatten(lines) == DropLF(Rest(text, v))
    decreases |text| + 1 - v
  {
    if v >= |text| then
      assert Rest(text, v) == [];
      []
    else
      var line := LineText(text, v);
      var rest := DrawnLines(text, ScrollView(text, v));
      LineSplit(text, v);
      assert Flatten([line] + rest) == line + Flatten(rest) by {
        assert ([line] + rest)[1..] == rest;
      }
      [line] + rest
  }

  /** The remaining text is the drawn line, then what scroll_view skips
      besides it (a line feed or nothing), then the text after the skip. */
  lemma LineSplit(text: seq<char>, v: nat)
    requires v < |text| && StrBuf.NUL !in text
    ensures DropLF(Rest(text, v)) == LineText(text, v) + DropLF(Rest(text, ScrollView(text, v)))
  {
    var line := LineText(text, v);
    var next := ScrollView(text, v);
    var e := v + |line|;
    var lf := LineEnd(text, v);
    if e == lf && e < |text| {
      assert text[v..] == line + [LF] + text[next..];
      DropSplit(text[v..], line, [LF], text[next..]);
    } else if e == lf {
      assert text[v..] == line + [] + [];
      DropSplit(text[v..], line, [], []);
    } else {
      assert text[v..] == line + [] + text[next..];
      DropSplit(text[v..], line, [], text[next..]);
    }
  }

  lemma DropSplit(whole: seq<char>, line: seq<char>, mid: seq<char>, after: seq<char>)
    requires whole == line + mid + after && LF !in line
    requires mid == [] || mid == [LF]
    ensures DropLF(whole) == line + DropLF(after)
  {
    DropLFConcat(line + mid, after);
    DropLFConcat(line, mid);
    DropLFNoLF(line);
    assert DropLF(mid) == [];
  }
}
