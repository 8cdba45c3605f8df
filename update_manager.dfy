/** The two pure helpers of the updater: quoting a path for the bash script
    it writes, and the download progress bar. */
module UpdateManager {
  import opened Wrappers
  import opened Text
  import opened Terminal
  import opened Seqs

  // ---------------------------------------------------------------------------
  // EscapePathForBash
  // ---------------------------------------------------------------------------

  /** What each single quote of the path becomes: close the quoted word, add a
      backslash-escaped quote, open a new quoted word. */
  const QuoteEscape: string := "'\\''"

  /** `path.Replace("'", "'\\''")`. The pattern is one character long, so
      the left-to-right replacement of .NET touches each quote on its own. */
  function ReplaceQuotes(path: string): (r: string)
  {
    if path == [] then []
    else (if path[0] == '\'' then QuoteEscape else [path[0]]) + ReplaceQuotes(path[1..])
  }

  /** The number of single quotes in `s`. */
  function Quotes(s: string): nat {
    multiset(s)['\'']
  }

  /** `"'" + path.Replace("'", "'\\''") + "'"`. */
  function EscapePathForBash(path: string): (r: string)
    ensures |r| >= 2 && r[0] == '\'' && r[|r| - 1] == '\''
  {
    "'" + ReplaceQuotes(path) + "'"
  }

  lemma {:induction false} ReplaceQuotesLength(path: string)
    ensures |ReplaceQuotes(path)| == |path| + 3 * Quotes(path)
  {
    if path != [] {
      assert path == [path[0]] + path[1..];
      assert multiset(path) == multiset([path[0]]) + multiset(path[1..]);
      ReplaceQuotesLength(path[1..]);
    }
  }

  lemma {:induction false} ReplaceWithoutQuotes(path: string)
    requires '\'' !in path
    ensures ReplaceQuotes(path) == path
  {
    if path != [] {
      assert path[0] != '\'';
      assert forall k :: 0 <= k < |path[1..]| ==> path[1..][k] == path[k + 1];
      ReplaceWithoutQuotes(path[1..]);
      assert path == [path[0]] + path[1..];
    }
  }

  /** A path without single quotes is only wrapped in a pair of them. */
  lemma EscapeWithoutQuotes(path: string)
    requires '\'' !in path
    ensures EscapePathForBash(path) == "'" + path + "'"
  {
    ReplaceWithoutQuotes(path);
  }

  /** Every quote costs three more characters; the wrapping costs two. */
  lemma EscapeLength(path: string)
    ensures |EscapePathForBash(path)| == |path| + 2 + 3 * Quotes(path)
  {
    ReplaceQuotesLength(path);
  }

  /** The inverse of `ReplaceQuotes`: each `'\''` back into one quote. */
  function Unreplace(s: string): (r: string)
    ensures |r| <= |s|
  {
    if |s| >= 4 && s[..4] == QuoteEscape then "'" + Unreplace(s[4..])
    else if s == [] then []
    else [s[0]] + Unreplace(s[1..])
  }

  lemma {:induction false} UnreplaceReplace(path: string)
    ensures Unreplace(ReplaceQuotes(path)) == path
  {
    if path != [] {
      var s := ReplaceQuotes(path);
      var rest := ReplaceQuotes(path[1..]);
      UnreplaceReplace(path[1..]);
      if path[0] == '\'' {
        assert s == QuoteEscape + rest;
        assert s[..4] == QuoteEscape && s[4..] == rest;
      } else {
        assert s == [path[0]] + rest;
        assert s[0] != '\'';
        assert s[1..] == rest;
      }
      assert path == [path[0]] + path[1..];
    }
  }

  /** Unescaping the inner part of the quoted form gives the path back. */
  lemma EscapeRoundTrip(path: string)
    ensures var r := EscapePathForBash(path); Unreplace(r[1..|r| - 1]) == path
  {
    var r := EscapePathForBash(path);
    assert r[1..|r| - 1] == ReplaceQuotes(path);
    UnreplaceReplace(path);
  }

  // ---------------------------------------------------------------------------
  // How bash reads the quoted form back
  // ---------------------------------------------------------------------------

  /** The first single quote at or after `j`, or `|s|` when there is none. */
  function CloseQuote(s: string, j: nat): (r: nat)
    requires j <= |s|
    ensures j <= r <= |s|
    ensures r < |s| ==> s[r] == '\''
    ensures forall k :: j <= k < r ==> s[k] != '\''
    decreases |s| - j
  {
    if j == |s| || s[j] == '\'' then j else CloseQuote(s, j + 1)
  }

  /** The one word a bash command line spells with single-quoted parts and
      backslash escapes (section 3.1.2 of the Bash Reference Manual): a
      single-quoted part stands for its characters exactly and cannot hold a
      single quote, and a backslash outside quotes stands for the character
      after it. None for an unclosed quote, a trailing backslash, or any
      other unquoted character, which bash could expand or split on. */
  function BashWord(s: string): (r: Option<string>)
    decreases |s|
  {
    if s == [] then Some([])
    else if s[0] == '\'' then
      var close := CloseQuote(s, 1);
      if close == |s| then None
      else match BashWord(s[close + 1..])
        case None => None
        case Some(rest) => Some(s[1..close] + rest)
    else if s[0] == '\\' && |s| >= 2 then
      match BashWord(s[2..])
      case None => None
      case Some(rest) => Some([s[1]] + rest)
    else None
  }

  /** The quote that closes `done` is found, and what follows it is `t`. */
  lemma CloseAfter(done: string, t: string)
    requires '\'' !in done
    ensures var s := "'" + done + "'" + t;
      && CloseQuote(s, 1) == |done| + 1 && s[1..|done| + 1] == done && s[|done| + 2..] == t
  {
    var s := "'" + done + "'" + t;
    assert s[|done| + 1] == '\'';
    assert forall k :: 1 <= k <= |done| ==> s[k] == done[k - 1];
  }

  /** A closed quoted part contributes its characters to the word. */
  lemma QuotedPart(done: string, t: string, x: string)
    requires '\'' !in done && BashWord(t) == Some(x)
    ensures BashWord("'" + done + "'" + t) == Some(done + x)
  {
    CloseAfter(done, t);
  }

  /** A backslash-escaped quote contributes one quote to the word. */
  lemma EscapedQuote(t: string, x: string)
    requires BashWord(t) == Some(x)
    ensures BashWord("\\'" + t) == Some("'" + x)
  {
    var s := "\\'" + t;
    assert s[0] == '\\' && s[1] == '\'' && s[2..] == t;
  }

  /** The escaped form of a quote ends the quoted part before it, and the
      quoted part after it goes on as before. */
  lemma QuoteStep(done: string, r: string, x: string)
    requires '\'' !in done && BashWord("'" + r + "'") == Some(x)
    ensures BashWord("'" + done + (QuoteEscape + r) + "'") == Some(done + ("'" + x))
  {
    var t := "'" + r + "'";
    EscapedQuote(t, x);
    assert "'" + done + (QuoteEscape + r) + "'" == "'" + done + "'" + ("\\'" + t);
    QuotedPart(done, "\\'" + t, "'" + x);
  }

  /** The quoted part opened before `done` (which holds no quote) goes on
      with what is left of the path. */
  lemma {:induction false} BashReadsRest(done: string, path: string)
    requires '\'' !in done
    ensures BashWord("'" + done + ReplaceQuotes(path) + "'") == Some(done + path)
    decreases |path|
  {
    var none: string := [];
    var r := ReplaceQuotes(path);
    if path == [] {
      assert "'" + done + r + "'" == "'" + done + "'" + none;
      QuotedPart(done, none, none);
      assert done + none == done + path;
    } else {
      var tail := path[1..];
      var rest := ReplaceQuotes(tail);
      assert path == [path[0]] + tail;
      if path[0] == '\'' {
        BashReadsRest(none, tail);
        assert "'" + none + rest + "'" == "'" + rest + "'";
        assert none + tail == tail;
        assert r == QuoteEscape + rest;
        QuoteStep(done, rest, tail);
      } else {
        assert r == [path[0]] + rest;
        assert "'" + done + r + "'" == "'" + (done + [path[0]]) + rest + "'";
        BashReadsRest(done + [path[0]], tail);
        assert done + [path[0]] + tail == done + path;
      }
    }
  }

  /** Bash reads the escaped form as exactly the original path, whatever
      quotes, spaces or other characters the path holds. */
  lemma BashReadsPath(path: string)
    ensures BashWord(EscapePathForBash(path)) == Some(path)
  {
    var none: string := [];
    assert EscapePathForBash(path) == "'" + none + ReplaceQuotes(path) + "'";
    BashReadsRest(none, path);
    assert none + path == path;
  }

  // ---------------------------------------------------------------------------
  // The download progress
  // ---------------------------------------------------------------------------

  /** The percentage the download loop reports after `totalRead` bytes of a
      body announced as `totalBytes` long: none when the length is 0 (unknown),
      otherwise `(totalRead * 100) / totalBytes` in truncating division. */
  function Progress(totalRead: nat, totalBytes: nat): (r: Option<int>)
    ensures r.None? <==> totalBytes == 0
  {
    if totalBytes == 0 then None else Some(CsDiv(totalRead * 100, totalBytes))
  }

  lemma MulLe(x: int, y: int, c: nat)
    requires x <= y
    ensures x * c <= y * c
  {
    assert y * c - x * c == (y - x) * c;
  }

  /** Dividing both sides of `x * c < y * c` by a positive `c`. */
  lemma CancelLt(x: int, y: int, c: nat)
    requires c > 0 && x * c < y * c
    ensures x < y
  {
    if x >= y {
      MulLe(y, x, c);
    }
  }

  lemma ProgressBounds(totalRead: nat, totalBytes: nat)
    requires 0 < totalBytes && totalRead <= totalBytes
    ensures Progress(totalRead, totalBytes).Some?
    ensures 0 <= Progress(totalRead, totalBytes).value <= 100
    ensures Progress(totalRead, totalBytes).value == 100 <==> totalRead == totalBytes
  {
    var q := CsDiv(totalRead * 100, totalBytes);
    assert q * totalBytes <= totalRead * 100 < q * totalBytes + totalBytes;
    assert (q + 1) * totalBytes == q * totalBytes + totalBytes;
    MulLe(totalRead, totalBytes, 100);
    assert q * totalBytes < 101 * totalBytes;
    CancelLt(q, 101, totalBytes);
    assert 0 * totalBytes < (q + 1) * totalBytes;
    CancelLt(0, q + 1, totalBytes);
    if totalRead == totalBytes {
      assert 100 * totalBytes < (q + 1) * totalBytes;
      CancelLt(100, q + 1, totalBytes);
    }
  }

  /** More bytes read never shows a smaller percentage. */
  lemma ProgressMonotone(a: nat, b: nat, totalBytes: nat)
    requires 0 < totalBytes && a <= b
    ensures Progress(a, totalBytes).value <= Progress(b, totalBytes).value
  {
    var p := CsDiv(a * 100, totalBytes);
    var q := CsDiv(b * 100, totalBytes);
    MulLe(a, b, 100);
    assert p * totalBytes <= a * 100;
    assert b * 100 < q * totalBytes + totalBytes;
    assert (q + 1) * totalBytes == q * totalBytes + totalBytes;
    CancelLt(p, q + 1, totalBytes);
  }

  /** The number of cells of the bar. */
  const BarLength: int := 29

  /** `(barLength * percentage) / 100` in truncating division. */
  function FilledLength(percentage: int): (r: int)
  {
    CsDiv(BarLength * percentage, 100)
  }

  /** The segments `DrawProgressBar(percentage)` writes, or None when
      `new string('━', filledLength)` throws for a negative count. */
  function DrawProgressBar(percentage: int): (r: Option<seq<Segment>>)
    ensures r.None? <==> FilledLength(percentage) < 0
    ensures r.Some? ==>
      var s := r.value;
      && |s| == (if FilledLength(percentage) < BarLength then 5 else 3)
      && s[0].colour == Default && s[1].colour == Green && s[|s| - 1].colour == White
      && (|s| == 5 ==> s[2] == Segment("┫", Green) && s[3].colour == DarkGray)
  {
    var filled := FilledLength(percentage);
    if filled < 0 then None
    else Some([Segment("\rProgress: ├", Default)] + Bar(filled)
      + [Segment("┤ " + PadLeft2(IntToString(percentage)) + "%", White)])
  }

  /** The bar between its two ends: the filled cells in green and, short of a
      full bar, a green cap and the remaining dashes in dark grey. */
  function Bar(filled: nat): (r: seq<Segment>)
  {
    [Segment(Repeat('━', filled), Green)]
    + if filled < BarLength
      then [Segment("┫", Green), Segment(Repeat('─', BarLength - filled - 1), DarkGray)]
      else []
  }

  /** The cells between the two bar ends. */
  function Cells(segments: seq<Segment>): (r: string)
  {
    if |segments| < 2 then [] else Written(segments[1..|segments| - 1])
  }

  /** For 0..100 the filled part covers 0..29 cells and all 29 for 100 only. */
  lemma FilledBounds(percentage: int)
    requires 0 <= percentage <= 100
    ensures 0 <= FilledLength(percentage) <= BarLength
    ensures FilledLength(percentage) == BarLength <==> percentage == 100
  {
    var f := FilledLength(percentage);
    assert f * 100 <= BarLength * percentage < f * 100 + 100;
  }

  /** The bar is drawn for every percentage from -3 up; it throws for the
      percentages whose product with 29 reaches -100. */
  lemma DrawThrows(percentage: int)
    ensures DrawProgressBar(percentage).None? <==> percentage <= -4
  {
    var f := FilledLength(percentage);
    if percentage >= 0 {
      assert f * 100 <= BarLength * percentage < f * 100 + 100;
    } else {
      assert f * 100 - 100 < BarLength * percentage <= f * 100;
    }
  }

  /** A bar with at most 29 filled cells is 29 cells wide: the filled ones,
      then the cap and the dashes. */
  lemma BarCells(filled: nat)
    requires filled <= BarLength
    ensures var cells := Written(Bar(filled));
      && |cells| == BarLength
      && (forall k :: 0 <= k < filled ==> cells[k] == '━')
      && (filled < BarLength ==> cells[filled] == '┫')
      && (forall k :: filled < k < BarLength ==> cells[k] == '─')
  {
    var bar := Bar(filled);
    var a := Segment(Repeat('━', filled), Green);
    assert [a][..0] == [];
    assert Written([a]) == a.text;
    if filled < BarLength {
      var b := Segment("┫", Green);
      var c := Segment(Repeat('─', BarLength - filled - 1), DarkGray);
      assert bar == [a, b, c];
      assert [a, b, c][..2] == [a, b];
      assert [a, b][..1] == [a];
      assert Written(bar) == a.text + b.text + c.text;
    } else {
      assert bar == [a];
    }
  }

  /** For 0..100, the bar is always 29 cells: the filled cells, then (short of
      100%) one cap and the remaining dashes; the percentage follows, right
      aligned in two columns. */
  lemma BarShape(percentage: int)
    requires 0 <= percentage <= 100
    ensures DrawProgressBar(percentage).Some?
    ensures var segments := DrawProgressBar(percentage).value;
      var filled := FilledLength(percentage);
      var cells := Cells(segments);
      && |cells| == BarLength
      && (forall k :: 0 <= k < filled ==> cells[k] == '━')
      && (filled < BarLength ==> cells[filled] == '┫')
      && (forall k :: filled < k < BarLength ==> cells[k] == '─')
      && Written(segments) == "\rProgress: ├" + cells + "┤ " + PadLeft2(IntToString(percentage)) + "%"
  {
    FilledBounds(percentage);
    var filled := FilledLength(percentage);
    var head := Segment("\rProgress: ├", Default);
    var tail := Segment("┤ " + PadLeft2(IntToString(percentage)) + "%", White);
    var bar := Bar(filled);
    var segments := DrawProgressBar(percentage).value;
    assert segments == [head] + bar + [tail];
    assert segments[1..|segments| - 1] == bar;
    assert Cells(segments) == Written(bar);
    BarCells(filled);
    assert Written(segments) == head.text + Written(bar) + tail.text by {
      WrittenAppend([head] + bar, [tail]);
      WrittenCons(head, bar);
      WrittenCons(tail, []);
    }
    var front := head.text + Written(bar);
    var number := PadLeft2(IntToString(percentage));
    AppendAssoc(front, "┤ " + number, "%");
    AppendAssoc(front, "┤ ", number);
  }
}
