/** The console front end of Classes/UI.cs that decides something: the
    line editor, the yes/no prompt, input validation, the framed header and
    the JSON colouriser. The keyboard is a finite sequence of key events and
    the screen is what gets written: a string, or text segments in colours. */
module UI {
  import opened Wrappers
  import opened Text
  import opened Terminal
  import opened Seqs
  import opened VaultDocument

  /** The `ConsoleKey` values the code tests for; every other key is `Other`. */
  datatype ConsoleKey = Enter | Backspace | Y | N | Other

  /** `ConsoleKeyInfo`: the key and the character it types. */
  datatype KeyInfo = KeyInfo(key: ConsoleKey, keyChar: char)

  /** The ANSI sequences of Classes/Colors.cs the header uses. */
  const Bold: string := "\U{1B}[1m"
  const Reset: string := "\U{1B}[0m"

  /** What `GetLine` writes for a backspace: cursor left, blank, cursor left. */
  const Rubout: string := "\U{1B}[D \U{1B}[D"

  // ---------------------------------------------------------------- GetLine

  /** The key that ends the line: Enter once the buffer is long enough. */
  predicate Accepts(buffer: string, k: KeyInfo, minLength: int) {
    k.key == Enter && |buffer| >= minLength
  }

  /** The buffer after a key that does not end the line: Backspace drops the
      last character, a non-control character is appended unless the buffer
      is at `maxLength` (`-1` is no limit), anything else is ignored. A short
      Enter falls through to the control-character test. */
  function Edit(buffer: string, k: KeyInfo, maxLength: int): (r: string)
    ensures |buffer| - 1 <= |r| <= |buffer| + 1
    ensures |r| == |buffer| ==> r == buffer
    ensures |r| < |buffer| ==> k.key == Backspace && r == buffer[..|buffer| - 1]
    ensures |r| > |buffer| ==>
      && k.key != Backspace && !IsControl(k.keyChar) && r == buffer + [k.keyChar]
      && (maxLength == -1 || |buffer| != maxLength)
    ensures k.key == Backspace && buffer != [] ==> r == buffer[..|buffer| - 1]
    ensures k.key != Backspace && !IsControl(k.keyChar) && (maxLength == -1 || |buffer| != maxLength)
      ==> r == buffer + [k.keyChar]
  {
    if k.key == Backspace then
      if |buffer| > 0 then buffer[..|buffer| - 1] else buffer
    else if !IsControl(k.keyChar) then
      if maxLength != -1 && |buffer| == maxLength then buffer else buffer + [k.keyChar]
    else buffer
  }

  /** What that key writes to the console: exactly the change it makes to
      the buffer, a star or the character for one more, a rubout for one
      less, nothing when the buffer stays as it was. */
  function KeyEcho(buffer: string, k: KeyInfo, hidden: bool, maxLength: int): (r: string)
    ensures |Edit(buffer, k, maxLength)| > |buffer| ==> r == (if hidden then "*" else [k.keyChar])
    ensures |Edit(buffer, k, maxLength)| < |buffer| ==> r == Rubout
    ensures |Edit(buffer, k, maxLength)| == |buffer| ==> r == ""
  {
    if k.key == Backspace then
      if |buffer| > 0 then Rubout else ""
    else if !IsControl(k.keyChar) then
      if maxLength != -1 && |buffer| == maxLength then "" else (if hidden then "*" else [k.keyChar])
    else ""
  }

  /** The buffer after editing with `keys`, none of which ended the line. */
  function Buffer(keys: seq<KeyInfo>, maxLength: int): string {
    if keys == [] then [] else Edit(Buffer(keys[..|keys| - 1], maxLength), keys[|keys| - 1], maxLength)
  }

  /** What those keys wrote. */
  function Echoes(keys: seq<KeyInfo>, hidden: bool, maxLength: int): string {
    if keys == [] then []
    else
      var init := keys[..|keys| - 1];
      Echoes(init, hidden, maxLength) + KeyEcho(Buffer(init, maxLength), keys[|keys| - 1], hidden, maxLength)
  }

  /** `GetLine`: the line is the buffer at the first Enter that finds it at
      least `minLength` long; `None` when the keys run out first (the console
      would wait for more). `used` counts the keys before that Enter. */
  method GetLine(message: string, hidden: bool, minLength: int, maxLength: int, keys: seq<KeyInfo>)
    returns (line: Option<string>, used: nat, echo: string)
    ensures used <= |keys|
    ensures Unaccepted(keys, used, minLength, maxLength)
    ensures line.Some? ==> used < |keys| && Accepts(Buffer(keys[..used], maxLength), keys[used], minLength)
    ensures line.Some? ==> line.value == Buffer(keys[..used], maxLength)
    ensures line.Some? ==> |line.value| >= minLength && (0 <= maxLength ==> |line.value| <= maxLength)
    ensures line.None? ==> used == |keys|
    ensures echo == message + " " + Echoes(keys[..used], hidden, maxLength) + (if line.Some? then "\n" else [])
  {
    // The prompt is written first and every echo after it; `prompt + typed`
    // is that output in order.
    var prompt := message + " ";
    var password: string := [];
    var typed: string := [];
    used := 0;
    while used < |keys|
      invariant 0 <= used <= |keys|
      invariant password == Buffer(keys[..used], maxLength)
      invariant typed == Echoes(keys[..used], hidden, maxLength)
      invariant Unaccepted(keys, used, minLength, maxLength)
    {
      var key := keys[used];
      KeyStep(keys, used, hidden, maxLength);
      UnacceptedExtend(keys, used, minLength, maxLength);
      ghost var nextBuffer := Edit(password, key, maxLength);
      ghost var nextEcho := typed + KeyEcho(password, key, hidden, maxLength);
      if key.key == Enter && |password| >= minLength {
        BufferWithinMax(keys[..used], maxLength);
        return Some(password), used, prompt + typed + "\n";
      } else if key.key == Backspace {
        if |password| > 0 {
          password := password[..|password| - 1];
          typed := typed + Rubout;
        }
      } else if !IsControl(key.keyChar) {
        if maxLength != -1 && |password| == maxLength {
          assert password == nextBuffer && typed + "" == nextEcho;
          used := used + 1;
          continue;
        }
        password := password + [key.keyChar];
        typed := typed + if hidden then "*" else [key.keyChar];
      } else {
        assert typed + "" == nextEcho;
      }
      assert password == nextBuffer && typed == nextEcho;
      used := used + 1;
    }
    assert keys[..used] == keys;
    return None, used, prompt + typed;
  }

  /** None of the first `n` keys ended the line. */
  predicate Unaccepted(keys: seq<KeyInfo>, n: nat, minLength: int, maxLength: int)
    requires n <= |keys|
  {
    forall j :: 0 <= j < n ==> !Accepts(Buffer(keys[..j], maxLength), keys[j], minLength)
  }

  lemma UnacceptedExtend(keys: seq<KeyInfo>, n: nat, minLength: int, maxLength: int)
    requires n < |keys| && Unaccepted(keys, n, minLength, maxLength)
    ensures !Accepts(Buffer(keys[..n], maxLength), keys[n], minLength) ==> Unaccepted(keys, n + 1, minLength, maxLength)
  {
  }

  lemma KeyStep(keys: seq<KeyInfo>, j: nat, hidden: bool, maxLength: int)
    requires j < |keys|
    ensures Buffer(keys[..j + 1], maxLength) == Edit(Buffer(keys[..j], maxLength), keys[j], maxLength)
    ensures Echoes(keys[..j + 1], hidden, maxLength)
         == Echoes(keys[..j], hidden, maxLength) + KeyEcho(Buffer(keys[..j], maxLength), keys[j], hidden, maxLength)
  {
    assert keys[..j + 1][..j] == keys[..j];
  }

  /** With a limit set, the buffer never grows past it. */
  lemma {:induction false} BufferWithinMax(keys: seq<KeyInfo>, maxLength: int)
    ensures 0 <= maxLength ==> |Buffer(keys, maxLength)| <= maxLength
  {
    if keys != [] {
      BufferWithinMax(keys[..|keys| - 1], maxLength);
    }
  }

  /** The buffer only ever holds characters that are not control characters. */
  lemma {:induction false} BufferPrintable(keys: seq<KeyInfo>, maxLength: int)
    ensures forall i :: 0 <= i < |Buffer(keys, maxLength)| ==> !IsControl(Buffer(keys, maxLength)[i])
  {
    if keys != [] {
      BufferPrintable(keys[..|keys| - 1], maxLength);
    }
  }

  /** The characters of the typed keys, in order. */
  function KeyChars(keys: seq<KeyInfo>): (r: string)
    ensures |r| == |keys| && forall i :: 0 <= i < |keys| ==> r[i] == keys[i].keyChar
  {
    seq(|keys|, i requires 0 <= i < |keys| => keys[i].keyChar)
  }

  /** Typing printable characters with no limit and no backspace builds
      exactly the string typed. */
  lemma {:induction false} PlainTyping(keys: seq<KeyInfo>)
    requires forall i :: 0 <= i < |keys| ==> keys[i].key != Backspace && !IsControl(keys[i].keyChar)
    ensures Buffer(keys, -1) == KeyChars(keys)
  {
    if keys != [] {
      PlainTyping(keys[..|keys| - 1]);
    }
  }

  /** The characters a hidden prompt may write: stars and the rubout sequence. */
  predicate Concealing(c: char) {
    c == '*' || c == '\U{1B}' || c == '[' || c == 'D' || c == ' '
  }

  /** `s` is a run of whole stars and whole rubout sequences. */
  predicate StarsAndRubouts(s: string)
    decreases |s|
  {
    || s == []
    || (s[|s| - 1] == '*' && StarsAndRubouts(s[..|s| - 1]))
    || (|s| >= |Rubout| && s[|s| - |Rubout|..] == Rubout && StarsAndRubouts(s[..|s| - |Rubout|]))
  }

  /** With `hidden` set nothing typed reaches the screen: the echo is a run
      of stars and rubout sequences, so every character of it is one of those
      the two pieces are made of. */
  lemma {:induction false} HiddenEcho(keys: seq<KeyInfo>, maxLength: int)
    ensures StarsAndRubouts(Echoes(keys, true, maxLength))
    ensures forall i :: 0 <= i < |Echoes(keys, true, maxLength)| ==> Concealing(Echoes(keys, true, maxLength)[i])
  {
    if keys != [] {
      var init := keys[..|keys| - 1];
      HiddenEcho(init, maxLength);
      var before := Echoes(init, true, maxLength);
      var e := KeyEcho(Buffer(init, maxLength), keys[|keys| - 1], true, maxLength);
      var echo := before + e;
      assert Echoes(keys, true, maxLength) == echo;
      assert forall i :: 0 <= i < |e| ==> Concealing(e[i]);
      if e == "*" {
        assert echo[..|echo| - 1] == before;
      } else if e == Rubout {
        assert echo[|echo| - |Rubout|..] == Rubout;
        assert echo[..|echo| - |Rubout|] == before;
      } else {
        assert echo == before;
      }
    }
  }

  // ---------------------------------------------------------------- ConfirmAction

  predicate IsAnswer(k: ConsoleKey) {
    k == Y || k == N
  }

  /** `ConfirmAction`: the first Y or N key decides, every other key is
      skipped; `None` when the keys run out first. */
  method ConfirmAction(message: string, keys: seq<ConsoleKey>) returns (result: Option<bool>, used: nat, output: string)
    ensures used <= |keys|
    ensures forall j :: 0 <= j < used ==> !IsAnswer(keys[j])
    ensures result.Some? ==> used < |keys| && IsAnswer(keys[used]) && (result.value <==> keys[used] == Y)
    ensures result.None? ==> used == |keys|
    ensures output == message + " [Y/N]:" + (if result.Some? then "\n" else [])
  {
    output := message + " [Y/N]:";
    var answer := false;
    used := 0;
    while used < |keys|
      invariant 0 <= used <= |keys|
      invariant forall j :: 0 <= j < used ==> !IsAnswer(keys[j])
    {
      var key := keys[used];
      if key == Y {
        answer := true;
        break;
      }
      if key == N {
        break;
      }
      used := used + 1;
    }
    if used == |keys| {
      return None, used, output;
    }
    output := output + "\n";
    result := Some(answer);
  }

  // ---------------------------------------------------------------- ValidatePasswordInput

  /** The outcome of `ValidatePasswordInput`: accepted, or the error it prints. */
  datatype Verdict = Accepted | Rejected(message: string)

  /** `ValidatePasswordInput`: each field must be neither empty nor
      whitespace only; the first failing field, in the order service,
      username, password, is the one reported. */
  function ValidatePasswordInput(service: string, username: string, password: string): (r: Verdict)
    ensures r.Accepted? <==> !IsBlank(service) && !IsBlank(username) && !IsBlank(password)
    ensures IsBlank(service) ==> r == Rejected("The service cannot be empty!")
    ensures !IsBlank(service) && IsBlank(username) ==> r == Rejected("Username cannot be empty!")
    ensures !IsBlank(service) && !IsBlank(username) && IsBlank(password) ==> r == Rejected("Password cannot be empty!")
  {
    if IsBlank(service) then Rejected("The service cannot be empty!")
    else if IsBlank(username) then Rejected("Username cannot be empty!")
    else if IsBlank(password) then Rejected("Password cannot be empty!")
    else Accepted
  }

  // ---------------------------------------------------------------- PrintHeader

  /** The inner width of every frame the UI draws. */
  const Width: nat := 43

  const HeaderTop: string := "╔" + Repeat('═', Width) + "╗"
  const HeaderBottom: string := "╚" + Repeat('═', Width) + "╝"

  /** Lines written, and whether the call returned normally; `false` means it
      threw after writing `lines`. */
  datatype Printed = Printed(lines: seq<string>, completed: bool)

  /** `PrintHeader`: the top border, then the title padded on both sides to
      the frame width, then the bottom border and a blank line when asked.
      A padding count that comes out negative makes `new string` throw. */
  function PrintHeader(title: string, showBottom: bool): (r: Printed)
    ensures |r.lines| >= 1 && r.lines[0] == HeaderTop
    ensures r.completed <==> |title| <= Width
    ensures |r.lines| == (if !r.completed then 1 else if showBottom then 4 else 2)
    ensures r.completed && showBottom ==> r.lines[2] == HeaderBottom && r.lines[3] == []
  {
    var padding := CsDiv(Width - |title|, 2);
    var right := Width - padding - |title|;
    if padding < 0 || right < 0 then Printed([HeaderTop], false)
    else
      var titleLine := "║" + Repeat(' ', padding) + Bold + title + Reset + Repeat(' ', right) + "║";
      Printed([HeaderTop, titleLine] + (if showBottom then [HeaderBottom, []] else []), true)
  }

  /** A title that fits is centred, any odd space going to the right, and
      the title line is as wide on screen as the borders. */
  lemma HeaderCentred(title: string, showBottom: bool)
    requires |title| <= Width
    ensures var h := PrintHeader(title, showBottom);
      var left := (Width - |title|) / 2;
      var right := Width - |title| - left;
      && h.completed
      && |h.lines| == (if showBottom then 4 else 2)
      && h.lines[0] == HeaderTop
      && h.lines[1] == "║" + Repeat(' ', left) + Bold + title + Reset + Repeat(' ', right) + "║"
      && (right == left || right == left + 1)
      && |h.lines[1]| - |Bold| - |Reset| == |HeaderTop|
  {
  }

  /** A title wider than the frame throws once the top border is written. */
  lemma HeaderTooWide(title: string, showBottom: bool)
    requires |title| > Width
    ensures PrintHeader(title, showBottom) == Printed([HeaderTop], false)
  {
  }

  // ---------------------------------------------------------------- PrintColorizedLine

  /** A character that continues a number token. */
  predicate IsNumberChar(c: char) {
    IsDigit(c) || c == '-' || c == '.'
  }

  /** Where the scan for the closing quote stops, as the code writes it: at
      the first quote from `j` on whose previous character is not a
      backslash, or at the end of the line. */
  function QuoteEndAsWritten(line: string, j: nat): (r: nat)
    requires 1 <= j <= |line|
    ensures j <= r <= |line|
    ensures r < |line| ==> line[r] == '"' && line[r - 1] != '\\'
    decreases |line| - j
  {
    if j == |line| then j
    else if line[j] == '"' && line[j - 1] != '\\' then j
    else QuoteEndAsWritten(line, j + 1)
  }

  /** No quote the scan passes over ends it: each is preceded by a backslash. */
  lemma {:induction false} QuoteEndAsWrittenFirst(line: string, j: nat)
    requires 1 <= j <= |line|
    ensures forall k :: j <= k < QuoteEndAsWritten(line, j) ==> line[k] != '"' || line[k - 1] == '\\'
    decreases |line| - j
  {
    if j < |line| && !(line[j] == '"' && line[j - 1] != '\\') {
      QuoteEndAsWrittenFirst(line, j + 1);
    }
  }

  /** The end of the number token that runs from `j`. */
  function NumberEnd(line: string, j: nat): (r: nat)
    requires j <= |line|
    ensures j <= r <= |line|
    ensures forall k :: j <= k < r ==> IsNumberChar(line[k])
    ensures r < |line| ==> !IsNumberChar(line[r])
    decreases |line| - j
  {
    if j < |line| && IsNumberChar(line[j]) then NumberEnd(line, j + 1) else j
  }

  /** What follows a quoted token makes it a key: a colon after optional
      whitespace. */
  predicate IsKey(line: string, end: nat)
    requires end < |line|
  {
    var after := TrimStart(line[end + 1..]);
    after != [] && after[0] == ':'
  }

  /** The colour of a quoted token that closes at `end`: cyan for a key,
      green for a value. */
  function QuotedColour(line: string, end: nat): Colour
    requires end < |line|
  {
    if IsKey(line, end) then Cyan else Green
  }

  /** One step of the colouriser: the segment written and where the next
      step starts, or a quote that is never closed. */
  datatype Lexeme = Unclosed | Lexeme(segment: Segment, next: nat)

  /** The step at the quote at `i` once the scan for its closing quote has
      stopped at `end`: a scan that reached the end of the line leaves the
      quote unclosed. */
  function QuotedLexeme(line: string, i: nat, end: nat): Lexeme
    requires i < end <= |line|
  {
    if end == |line| then Unclosed
    else Lexeme(Segment(line[i..end + 1], QuotedColour(line, end)), end + 1)
  }

  /** One step of the colouriser at `i`: the segment written and where the
      next step starts; `Unclosed` when the quote scan runs to the end of the
      line, where the `Substring` call throws. */
  function Token(line: string, i: nat): (r: Lexeme)
    requires i < |line|
    ensures r.Lexeme? ==> i < r.next <= |line| && r.segment.text == line[i..r.next]
  {
    if line[i] == ' ' then Lexeme(Segment(" ", Default), i + 1)
    else if line[i] == '"' then QuotedLexeme(line, i, QuoteEndAsWritten(line, i + 1))
    else if IsDigit(line[i]) || line[i] == '-' then
      var end := NumberEnd(line, i);
      Lexeme(Segment(line[i..end], Yellow), end)
    else Lexeme(Segment([line[i]], White), i + 1)
  }

  /** The colouriser stops only at a quote after which no quote without a
      backslash in front of it follows. */
  lemma TokenFails(line: string, i: nat)
    requires i < |line|
    ensures Token(line, i).Unclosed? <==> line[i] == '"' && QuoteEndAsWritten(line, i + 1) == |line|
  {
  }

  /** A quoted token runs to the first later quote that has no backslash in
      front of it, and is a key (cyan) exactly when a colon follows it, a
      value (green) otherwise. */
  lemma TokenString(line: string, i: nat)
    requires i < |line| && line[i] == '"' && Token(line, i).Lexeme?
    ensures var Lexeme(segment, next) := Token(line, i);
      && line[next - 1] == '"' && line[next - 2] != '\\'
      && (forall k :: i < k < next - 1 ==> line[k] != '"' || line[k - 1] == '\\')
      && (segment.colour == Cyan <==> IsKey(line, next - 1))
      && (segment.colour == Cyan || segment.colour == Green)
  {
    var end := QuoteEndAsWritten(line, i + 1);
    assert end < |line|;
    QuoteEndAsWrittenFirst(line, i + 1);
    TokenQuoted(line, i, end);
  }

  /** A token that starts with a digit or a minus sign is a yellow number
      running over the longest stretch of number characters. */
  lemma TokenNumberRun(line: string, i: nat)
    requires i < |line| && (IsDigit(line[i]) || line[i] == '-')
    ensures Token(line, i).Lexeme?
    ensures var Lexeme(segment, next) := Token(line, i);
      && segment.colour == Yellow
      && (forall k :: i <= k < next ==> IsNumberChar(line[k]))
      && (next < |line| ==> !IsNumberChar(line[next]))
  {
  }

  /** The segments the colouriser writes from `i` on, and whether it reaches
      the end of the line without throwing. */
  function Colorize(line: string, i: nat): (r: (seq<Segment>, bool))
    requires i <= |line|
    ensures |r.0| <= |line| - i
    ensures forall k :: 0 <= k < |r.0| ==> r.0[k].text != []
    decreases |line| - i
  {
    if i == |line| then ([], true)
    else if Token(line, i).Unclosed? then ([], false)
    else
      var Lexeme(segment, next) := Token(line, i);
      var rest := Colorize(line, next);
      ([segment] + rest.0, rest.1)
  }

  /** One token, then the rest of the line. */
  lemma ColorizeStep(line: string, i: nat, segment: Segment, next: nat)
    requires i < |line| && Token(line, i) == Lexeme(segment, next)
    ensures Colorize(line, i) == ([segment] + Colorize(line, next).0, Colorize(line, next).1)
  {
  }

  /** The segments written are always a prefix of the line, and all of it
      when the colouriser completes. */
  lemma {:induction false} ColorizeCovers(line: string, i: nat)
    requires i <= |line|
    ensures Written(Colorize(line, i).0) <= line[i..]
    ensures Colorize(line, i).1 ==> Written(Colorize(line, i).0) == line[i..]
    decreases |line| - i
  {
    if i < |line| && Token(line, i).Lexeme? {
      var Lexeme(segment, next) := Token(line, i);
      ColorizeStep(line, i, segment, next);
      ColorizeCovers(line, next);
      CoversStep(line, i, segment, next, Colorize(line, next).0, Colorize(line, next).1);
    }
  }

  /** A segment over `line[i..next]` followed by segments that cover a
      prefix of the rest, or all of it. */
  lemma CoversStep(line: string, i: nat, segment: Segment, next: nat, rest: seq<Segment>, done: bool)
    requires i < next <= |line| && segment.text == line[i..next]
    requires Written(rest) <= line[next..]
    requires done ==> Written(rest) == line[next..]
    ensures Written([segment] + rest) <= line[i..]
    ensures done ==> Written([segment] + rest) == line[i..]
  {
    WrittenCons(segment, rest);
    assert line[i..] == line[i..next] + line[next..];
  }

  /** An incomplete run stops right where a token is never closed. */
  lemma {:induction false} ColorizeStops(line: string, i: nat)
    requires i <= |line| && !Colorize(line, i).1
    ensures var k := i + |Written(Colorize(line, i).0)|;
      k < |line| && Token(line, k).Unclosed?
    decreases |line| - i
  {
    if Token(line, i).Lexeme? {
      var Lexeme(segment, next) := Token(line, i);
      ColorizeStep(line, i, segment, next);
      ColorizeStops(line, next);
      var rest := Colorize(line, next).0;
      WrittenCons(segment, rest);
      assert i + |Written(Colorize(line, i).0)| == next + |Written(rest)|;
    } else {
      assert Colorize(line, i).0 == [];
    }
  }

  /** `PrintColorizedLine`: walks the line once, writing spaces plain, quoted
      tokens as keys or values, number runs in yellow and any other
      character in white. */
  method PrintColorizedLine(line: string) returns (segments: seq<Segment>, completed: bool)
    ensures (segments, completed) == Colorize(line, 0)
    ensures Written(segments) <= line
    ensures completed ==> Written(segments) == line
    ensures !completed ==> |Written(segments)| < |line| && Token(line, |Written(segments)|).Unclosed?
  {
    segments := [];
    var i := 0;
    while i < |line|
      invariant 0 <= i <= |line|
      invariant segments + Colorize(line, i).0 == Colorize(line, 0).0
      invariant Colorize(line, i).1 == Colorize(line, 0).1
    {
      var token := ReadToken(line, i);
      if token.Unclosed? {
        // `Substring(i, end - i + 1)` runs past the end of the line and throws.
        StoppedAt(line, i, segments);
        return segments, false;
      }
      var Lexeme(segment, next) := token;
      ColorizeStep(line, i, segment, next);
      AppendAssoc(segments, [segment], Colorize(line, next).0);
      segments := segments + [segment];
      i := next;
    }
    completed := true;
    assert segments + [] == segments;
    ColorizeCovers(line, 0);
  }

  /** The state of `PrintColorizedLine` when it meets a quote that is never
      closed. */
  lemma StoppedAt(line: string, i: nat, segments: seq<Segment>)
    requires i < |line| && Token(line, i).Unclosed?
    requires segments + Colorize(line, i).0 == Colorize(line, 0).0
    requires Colorize(line, i).1 == Colorize(line, 0).1
    ensures (segments, false) == Colorize(line, 0)
    ensures Written(segments) <= line
    ensures |Written(segments)| < |line| && Token(line, |Written(segments)|).Unclosed?
  {
    assert Colorize(line, i) == ([], false);
    assert segments == Colorize(line, 0).0 by {
      assert segments + [] == segments;
    }
    ColorizeCovers(line, 0);
    ColorizeStops(line, 0);
  }

  /** One pass of the loop body of `PrintColorizedLine`, with its inner
      scans for the closing quote and for the end of a number. */
  method ReadToken(line: string, i: nat) returns (token: Lexeme)
    requires i < |line|
    ensures token == Token(line, i)
  {
    if line[i] == ' ' {
      TokenSpace(line, i);
      return Lexeme(Segment(" ", Default), i + 1);
    } else if line[i] == '"' {
      var end := ScanQuote(line, i + 1);
      if end == |line| {
        return Unclosed;
      }
      var stringValue := line[i..end + 1];
      var rest := TrimStart(line[end + 1..]);
      var colour := if rest != [] && rest[0] == ':' then Cyan else Green;
      TokenQuoted(line, i, end);
      return Lexeme(Segment(stringValue, colour), end + 1);
    } else if IsDigit(line[i]) || line[i] == '-' {
      var end := ScanNumber(line, i);
      TokenNumber(line, i);
      return Lexeme(Segment(line[i..end], Yellow), end);
    } else {
      TokenOther(line, i);
      return Lexeme(Segment([line[i]], White), i + 1);
    }
  }

  /** The inner loop that looks for the closing quote. */
  method ScanQuote(line: string, start: nat) returns (end: nat)
    requires 1 <= start <= |line|
    ensures end == QuoteEndAsWritten(line, start)
  {
    end := start;
    while end < |line| && (line[end] != '"' || line[end - 1] == '\\')
      invariant start <= end <= |line|
      invariant QuoteEndAsWritten(line, end) == QuoteEndAsWritten(line, start)
      decreases |line| - end
    {
      end := end + 1;
    }
  }

  /** The inner loop that runs over a number. */
  method ScanNumber(line: string, start: nat) returns (end: nat)
    requires start <= |line|
    ensures end == NumberEnd(line, start)
  {
    end := start;
    while end < |line| && IsNumberChar(line[end])
      invariant start <= end <= |line|
      invariant NumberEnd(line, end) == NumberEnd(line, start)
    {
      end := end + 1;
    }
  }

  lemma TokenSpace(line: string, i: nat)
    requires i < |line| && line[i] == ' '
    ensures Token(line, i) == Lexeme(Segment(" ", Default), i + 1)
  {
  }

  lemma TokenQuoted(line: string, i: nat, end: nat)
    requires i < end < |line| && line[i] == '"' && end == QuoteEndAsWritten(line, i + 1)
    ensures Token(line, i) == Lexeme(Segment(line[i..end + 1], QuotedColour(line, end)), end + 1)
  {
  }

  lemma TokenNumber(line: string, i: nat)
    requires i < |line| && line[i] != ' ' && line[i] != '"' && (IsDigit(line[i]) || line[i] == '-')
    ensures Token(line, i) == Lexeme(Segment(line[i..NumberEnd(line, i)], Yellow), NumberEnd(line, i))
  {
  }

  lemma TokenOther(line: string, i: nat)
    requires i < |line| && line[i] != ' ' && line[i] != '"' && !IsDigit(line[i]) && line[i] != '-'
    ensures Token(line, i) == Lexeme(Segment([line[i]], White), i + 1)
  {
  }

  // ---------------------------------------------------------------- the scan on what the JSON writer emits

  /** Over a stretch with no quote, the scan as written goes on to the next
      quote, and stops there unless a backslash precedes it. */
  lemma {:induction false} QuoteEndAsWrittenReaches(line: string, j: nat, p: nat)
    requires 1 <= j <= p < |line| && line[p] == '"'
    requires forall k :: j <= k < p ==> line[k] != '"'
    ensures QuoteEndAsWritten(line, j) == if line[p - 1] != '\\' then p else QuoteEndAsWritten(line, p + 1)
    decreases p - j
  {
    if j < p {
      QuoteEndAsWrittenReaches(line, j + 1, p);
    }
  }

  /** On a line holding a string the writer wrote, after whatever comes
      before it (the indentation and the key of a `"key": "value"` line),
      the scan as written from that string's opening quote finds its closing
      quote exactly when the string does not end in a backslash. */
  lemma ClosedUnlessTrailingBackslash(head: string, s: string, tail: string)
    ensures var line := head + "\"" + JsonEscape(s) + "\"" + tail;
      QuoteEndAsWritten(line, |head| + 1) == |head| + |JsonEscape(s)| + 1 <==> !(s != [] && s[|s| - 1] == '\\')
  {
    var e := JsonEscape(s);
    var line := head + "\"" + e + "\"" + tail;
    var p := |head| + |e| + 1;
    assert line[|head|] == '"' && line[p] == '"';
    forall k | |head| + 1 <= k < p
      ensures line[k] != '"'
    {
      assert line[k] == e[k - |head| - 1];
    }
    QuoteEndAsWrittenReaches(line, |head| + 1, p);
    if s != [] {
      JsonEscapeEnd(s);
      assert line[p - 1] == e[|e| - 1];
    }
  }

  /** A run that throws after a token threw before it too. */
  lemma FailsAfter(line: string, i: nat)
    requires i < |line| && Token(line, i).Lexeme? && !Colorize(line, Token(line, i).next).1
    ensures !Colorize(line, i).1
  {
  }

  /** Leading spaces are written one by one, so a run that throws after
      them throws from the start of the line. */
  lemma {:induction false} FailsAfterSpaces(line: string, n: nat)
    requires n <= |line| && (forall k :: 0 <= k < n ==> line[k] == ' ') && !Colorize(line, n).1
    ensures !Colorize(line, 0).1
    decreases n
  {
    if n > 0 {
      TokenSpace(line, n - 1);
      FailsAfter(line, n - 1);
      FailsAfterSpaces(line, n - 1);
    }
  }

  /** A line shaped like `"key": "\\"` after any number `n` of spaces, the
      key of any length with no backslash before its closing quote at `q`, and
      a value whose content is one escaped backslash: the colouriser throws at
      the value's opening quote. */
  lemma KeyValueMisread(line: string, n: nat, q: nat)
    requires n < q && |line| == q + 7
    requires (forall k :: 0 <= k < n ==> line[k] == ' ') && line[n] == '"'
    requires (forall k :: n < k < q ==> line[k] != '"') && line[q - 1] != '\\' && line[q] == '"'
    requires line[q + 1] == ':' && line[q + 2] == ' '
    requires line[q + 3] == '"' && line[q + 4] == '\\' && line[q + 5] == '\\' && line[q + 6] == '"'
    ensures QuoteEndAsWritten(line, q + 4) == |line|
    ensures !Colorize(line, 0).1
  {
    assert QuoteEndAsWritten(line, q + 4) == |line|;
    assert !Colorize(line, q + 3).1;
    TokenSpace(line, q + 2);
    FailsAfter(line, q + 2);
    TokenOther(line, q + 1);
    FailsAfter(line, q + 1);
    QuoteEndAsWrittenReaches(line, n + 1, q);
    TokenQuoted(line, n, q);
    FailsAfter(line, n);
    FailsAfterSpaces(line, n);
  }

  /** The line the vault viewer colours for a password that is one
      backslash: the written document puts a record's fields four levels
      deep, eight spaces in. The colouriser throws at the value's opening
      quote, after writing the indentation, the key and the colon. */
  lemma IndentedValueMisread()
    ensures var line := "        \"password\": \"\\\\\"";
      && QuoteEndAsWritten(line, 21) == |line|
      && !Colorize(line, 0).1
  {
    KeyValueMisread("        \"password\": \"\\\\\"", 8, 17);
  }

  // ---------------------------------------------------------------- the closing-quote test, corrected

  /** The index of the quote that closes a string opened before `j`, or
      `|line|` if there is none. A backslash escapes the character after it. */
  function QuoteEnd(line: string, j: nat): (r: nat)
    requires j <= |line|
    ensures j <= r <= |line|
    ensures r < |line| ==> line[r] == '"'
    decreases |line| - j
  {
    if j == |line| then j
    else if line[j] == '"' then j
    else if line[j] == '\\' && j + 1 < |line| then QuoteEnd(line, j + 2)
    else QuoteEnd(line, j + 1)
  }

  /** The colouriser's step with the corrected scan. */
  function CorrectedToken(line: string, i: nat): (r: Lexeme)
    requires i < |line|
    ensures r.Lexeme? ==> i < r.next <= |line| && r.segment.text == line[i..r.next]
  {
    if line[i] == '"' then QuotedLexeme(line, i, QuoteEnd(line, i + 1)) else Token(line, i)
  }

  /** A JSON string holding one backslash, `"\\"`, on a line of its own: the
      scan as written runs past its closing quote to the end of the line, so
      the `Substring` that follows throws and nothing of the line is written;
      the corrected scan stops at the quote and writes the line as a value. */
  lemma EscapedBackslashMisread()
    ensures var line := "\"\\\\\"";
      && |line| == 4
      && QuoteEndAsWritten(line, 1) == |line|
      && Token(line, 0).Unclosed?
      && Colorize(line, 0) == ([], false)
      && QuoteEnd(line, 1) == 3
      && CorrectedToken(line, 0) == Lexeme(Segment(line, Green), 4)
  {
    var line := "\"\\\\\"";
    assert line[4..] == [];
    assert line[0..4] == line;
  }

  /** Where no backslash occurs the two scans agree. */
  lemma {:induction false} ScansAgreeWithoutBackslash(line: string, j: nat)
    requires 1 <= j <= |line|
    requires forall k :: 0 <= k < |line| ==> line[k] != '\\'
    ensures QuoteEnd(line, j) == QuoteEndAsWritten(line, j)
    decreases |line| - j
  {
    if j < |line| && line[j] != '"' {
      ScansAgreeWithoutBackslash(line, j + 1);
    }
  }

  /** The corrected scan passes over one escaped character whole. */
  lemma QuoteEndSkipsEscape(pre: string, c: char, post: string)
    requires post != []
    ensures var line := pre + EscapeChar(c) + post;
      QuoteEnd(line, |pre|) == QuoteEnd(line, |pre| + |EscapeChar(c)|)
  {
    var line := pre + EscapeChar(c) + post;
    if c == '"' {
      assert EscapeChar(c) == "\\u0022";
      SkipsQuoteEscape(pre, post);
    } else if c == '\\' {
      assert EscapeChar(c) == "\\\\";
      assert line[|pre|] == '\\' && |pre| + 1 < |line|;
    } else {
      assert EscapeChar(c) == [c];
      assert line[|pre|] == c;
    }
  }

  /** `\u0022` holds no quote: the scan goes on after it. */
  lemma SkipsQuoteEscape(pre: string, post: string)
    requires post != []
    ensures var line := pre + "\\u0022" + post;
      QuoteEnd(line, |pre|) == QuoteEnd(line, |pre| + 6)
  {
    var line := pre + "\\u0022" + post;
    var j := |pre|;
    assert line[j] == '\\' && line[j + 2] == '0' && line[j + 3] == '0';
    assert line[j + 4] == '2' && line[j + 5] == '2';
    assert QuoteEnd(line, j) == QuoteEnd(line, j + 2);
    assert QuoteEnd(line, j + 2) == QuoteEnd(line, j + 3);
    assert QuoteEnd(line, j + 3) == QuoteEnd(line, j + 4);
    assert QuoteEnd(line, j + 4) == QuoteEnd(line, j + 5);
    assert QuoteEnd(line, j + 5) == QuoteEnd(line, j + 6);
  }

  /** The corrected scan finds the quote that closes an escaped string,
      whatever its content and whatever follows. */
  lemma {:induction false} QuoteEndFindsClose(head: string, s: string, tail: string)
    requires tail != [] && tail[0] == '"'
    ensures QuoteEnd(head + JsonEscape(s) + tail, |head|) == |head| + |JsonEscape(s)|
    decreases |s|
  {
    var line := head + JsonEscape(s) + tail;
    if s == [] {
      assert line[|head|] == '"';
    } else {
      var e := EscapeChar(s[0]);
      var more := JsonEscape(s[1..]);
      assert JsonEscape(s) == e + more;
      assert line == (head + e) + more + tail by {
        AppendAssoc(head, e, more);
      }
      QuoteEndFindsClose(head + e, s[1..], tail);
      assert line == head + e + (more + tail) by {
        AppendAssoc(head + e, more, tail);
      }
      QuoteEndSkipsEscape(head, s[0], more + tail);
    }
  }

  /** So with the corrected scan a quoted JSON string is always one token,
      and nothing else on the line is swallowed by it. */
  lemma StringTokenIsWhole(s: string, tail: string)
    ensures var line := "\"" + JsonEscape(s) + "\"" + tail;
      CorrectedToken(line, 0).Lexeme? && CorrectedToken(line, 0).next == |JsonEscape(s)| + 2
  {
    var line := "\"" + JsonEscape(s) + "\"" + tail;
    assert line == "\"" + JsonEscape(s) + ("\"" + tail);
    QuoteEndFindsClose("\"", s, "\"" + tail);
  }
}
