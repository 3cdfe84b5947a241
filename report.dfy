/** Failure records and the reported parse error. */
module Report {
  import opened Wrappers
  import opened Decimal

  /** A failure recorded at some offset: its message and where it happened. */
  datatype PegError = PegError(msg: string, line: nat, col: nat)

  /** The error a caller of the parser sees. */
  datatype ParseError = ParseError(msg: string, text: string, offset: int, line: int, col: int) {

    /** "parse error <msg> on line <L>, column <C>, offset <O>, content: <text>" */
    function Error(): (r: string)
      ensures |r| >= 12 + |msg| + 9 && r[..12 + |msg| + 9] == "parse error " + msg + " on line "
      ensures |r| >= 11 + |text| && r[|r| - (11 + |text|)..] == ", content: " + text
      // line, column and offset appear in that order, each in a form that reads back as the number
      ensures exists l, c, o ::
                && ParseInt(l) == Some(line) && ParseInt(c) == Some(col) && ParseInt(o) == Some(offset)
                && r == "parse error " + msg + " on line " + l + ", column " + c + ", offset " + o + ", content: " + text
    {
      var l, c, o := IntToString(line), IntToString(col), IntToString(offset);
      IntToStringRoundTrip(line);
      IntToStringRoundTrip(col);
      IntToStringRoundTrip(offset);
      "parse error " + msg + " on line " + l + ", column " + c + ", offset " + o + ", content: " + text
    }
  }

  function Min(a: int, b: int): int {
    if a <= b then a else b
  }

  /**
   * The up to four characters of `s` starting at `pos`, shown as what was
   * found instead of the expected text; shorter (or empty) near the end.
   */
  function Excerpt(s: string, pos: nat): (r: string)
    ensures |r| <= 4
    ensures pos + 4 <= |s| ==> r == s[pos..pos + 4]
    ensures pos <= |s| ==> |r| == Min(4, |s| - pos) && r == s[pos..pos + |r|]
    ensures pos >= |s| ==> r == ""
  {
    if pos >= |s| then "" else s[pos..Min(pos + 4, |s|)]
  }

  /** The message `_error` records: the one given, or "expected <expr>, found <excerpt>". */
  function FailureMessage(s: string, pos: nat, err: Option<string>, expr: string): (r: string)
    ensures err.Some? ==> r == err.value
    ensures err.None? ==> r == "expected " + expr + ", found " + Excerpt(s, pos)
  {
    err.GetOr("expected " + expr + ", found " + Excerpt(s, pos))
  }
}
