/** The console as the modelled code sees it: what it writes is a list of
    text segments, each shown in one foreground colour. */
module Terminal {

  /** The console colours the modelled code selects; `Default` is the colour
      after `Console.ResetColor()`. */
  datatype Colour = Default | Cyan | Green | Yellow | White | DarkGray

  datatype Segment = Segment(text: string, colour: Colour)

  /** The characters a list of segments puts on the screen, colours dropped. */
  function Written(segments: seq<Segment>): (r: string)
    ensures segments == [] ==> r == []
  {
    if segments == [] then [] else Written(segments[..|segments| - 1]) + segments[|segments| - 1].text
  }

  lemma {:induction false} WrittenAppend(a: seq<Segment>, b: seq<Segment>)
    ensures Written(a + b) == Written(a) + Written(b)
    decreases |b|
  {
    if b == [] {
      assert a + b == a;
    } else {
      var n := |b| - 1;
      assert (a + b)[..|a + b| - 1] == a + b[..n];
      WrittenAppend(a, b[..n]);
    }
  }

  /** One segment, then the rest. */
  lemma WrittenCons(segment: Segment, rest: seq<Segment>)
    ensures Written([segment] + rest) == segment.text + Written(rest)
  {
    WrittenAppend([segment], rest);
    assert [segment][..0] == [];
  }
}
