/** The terminal's text handling: the scrollback buffer `text_buf`, the line
    being typed `input_buf`, the edits of the key handler and the temporary
    concatenation done while redrawing. */
module Terminal {
  import opened StrBuf
  import opened LineWrap

  const Prompt: seq<char> := "snowflakeos $ "
  const Newline: seq<char> := "\n"
  const Cursor: seq<char> := "_"

  /** The two buffers of the terminal. */
  datatype Console = Console(text: Str, input: Str)

  predicate Valid(c: Console) {
    StrBuf.Valid(c.text) && StrBuf.Valid(c.input)
  }

  /** The buffers `main` starts with: the prompt, and an empty input line. */
  function Start(): (c: Console)
    ensures Valid(c)
    ensures c.text.text == Prompt && c.input.text == []
  {
    Console(StrNew(Prompt), StrNew(""))
  }

  /** Everything appended to a buffer by a sequence of str_append calls. */
  function Joined(pieces: seq<seq<char>>): seq<char> {
    if |pieces| == 0 then [] else CStr(pieces[0]) + Joined(pieces[1..])
  }

  /** A sequence of str_append calls, one per piece. */
  function AppendAll(s: Str, pieces: seq<seq<char>>): (r: Str)
    requires StrBuf.Valid(s)
    ensures StrBuf.Valid(r)
    ensures r.text == s.text + Joined(pieces)
    ensures r.bufLen >= s.bufLen
    decreases |pieces|
  {
    if |pieces| == 0 then s
    else
      var s' := StrAppend(s, pieces[0]);
      var r := AppendAll(s', pieces[1..]);
      assert Joined(pieces) == CStr(pieces[0]) + Joined(pieces[1..]);
      assert r.text == s.text + CStr(pieces[0]) + Joined(pieces[1..]);
      r
  }

  /** The Enter key: the typed line and a line feed go to the scrollback,
      then whatever the command prints (`replies`, the str_append calls
      interpret_cmd makes), then a fresh prompt; the input line is emptied
      in place. */
  function Enter(c: Console, replies: seq<seq<char>>): (r: Console)
    requires Valid(c)
    ensures Valid(r)
    ensures r.text.text == c.text.text + c.input.text + Newline + Joined(replies) + Prompt
    ensures r.input.text == [] && r.input.bufLen == c.input.bufLen
  {
    var t := StrAppend(c.text, c.input.text);
    var t := StrAppend(t, Newline);
    var t := AppendAll(t, replies);
    var input := Str([], c.input.bufLen);
    var t := StrAppend(t, Prompt);
    Console(t, input)
  }

  /** The Backspace key: drop the last typed character, if any. */
  function Backspace(c: Console): (r: Console)
    requires Valid(c)
    ensures Valid(r)
    ensures r.text == c.text && r.input.bufLen == c.input.bufLen
    ensures |c.input.text| == 0 ==> r == c
    ensures |c.input.text| > 0 ==>
              r.input.text + [c.input.text[|c.input.text| - 1]] == c.input.text
  {
    if |c.input.text| > 0 then
      Console(c.text, Truncate(c.input, 1))
    else c
  }

  /** Any other accepted key: its character, as a one-character C string,
      is appended to the input line (nothing when the character is NUL). */
  function TypeKey(c: Console, key: char): (r: Console)
    requires Valid(c)
    ensures Valid(r)
    ensures r.text == c.text
    ensures key != NUL ==> r.input.text == c.input.text + [key]
    ensures key == NUL ==> r.input.text == c.input.text
  {
    Console(c.text, StrAppend(c.input, [key, NUL]))
  }

  /** What redraw lays out: the scrollback, the input line, and the cursor
      when it is shown. */
  function Shown(c: Console, cursor: bool): seq<char> {
    c.text.text + c.input.text + (if cursor then Cursor else [])
  }

  /** redraw, without the drawing: append the input line and the cursor to
      `text_buf`, scroll past the lines that do not fit, then cut the
      appended characters off again. Returns the scrollback afterwards and
      the position in the shown text where drawing starts. */
  method Redraw(c: Console, cursor: bool) returns (text: Str, view: nat)
    requires Valid(c)
    ensures StrBuf.Valid(text)
    ensures text.text == c.text.text
    ensures text.bufLen >= c.text.bufLen
    ensures view <= |Shown(c, cursor)|
    ensures var all := LinesFrom(Shown(c, cursor), 0);
              LinesFrom(Shown(c, cursor), view) == if all > MaxLine then MaxLine else all
  {
    var t := StrAppend(c.text, c.input.text);
    if cursor {
      t := StrAppend(t, Cursor);
    }
    assert t.text == Shown(c, cursor);
    var n := CountLines(t.text);
    view := 0;
    if n > MaxLine {
      var i: nat := 0;
      while i < n - MaxLine
        invariant i <= n - MaxLine
        invariant view <= |t.text|
        invariant LinesFrom(t.text, view) == n - i
      {
        view := ScrollView(t.text, view);
        i := i + 1;
      }
    }
    // De-concatenate: first the input line's length, then the cursor.
    t := Truncate(t, |c.input.text|);
    if cursor {
      t := Truncate(t, 1);
    }
    assert t.text == c.text.text;
    text := t;
  }
}
