/** The comment records every script reads, one JSON object per line of a dump. */
module Records {
  import opened Base

  /**
   * A decoded JSON object. Each field is `None` when its key is absent.
   * `created` is the value of `created_utc` in whole seconds.
   */
  datatype Raw = Raw(author: Option<string>, subreddit: Option<string>, created: Option<int>, body: Option<string>)

  /**
   * One line of an input file: its text, and the outcome of decoding it as JSON
   * (`None` when the decoder rejects it, which includes a blank line).
   */
  datatype Line = Line(text: string, json: Option<Raw>)

  /** A comment with all three required fields present. */
  datatype Event = Event(author: string, subreddit: string, ts: int)

  /** The record a line yields once blank, undecodable and incomplete lines are skipped. */
  function AsEvent(l: Line): (e: Option<Event>)
    ensures e.Some? <==> l.json.Some? && l.json.value.author.Some?
                         && l.json.value.subreddit.Some? && l.json.value.created.Some?
    ensures e.Some? ==> e.value.author == l.json.value.author.value
                        && e.value.subreddit == l.json.value.subreddit.value
                        && e.value.ts == l.json.value.created.value
  {
    match l.json
    case Some(Raw(Some(a), Some(s), Some(t), _)) => Some(Event(a, s, t))
    case _ => None
  }

  /** The records of a sequence of lines, in order, skipping lines that yield none. */
  function Events(lines: seq<Line>): (es: seq<Event>)
    ensures |es| <= |lines|
  {
    if lines == [] then []
    else
      var rest := Events(lines[..|lines| - 1]);
      var last := lines[|lines| - 1];
      match AsEvent(last)
      case Some(e) => rest + [e]
      case None => rest
  }

  lemma {:induction false} EventsAppend(a: seq<Line>, b: seq<Line>)
    ensures Events(a + b) == Events(a) + Events(b)
  {
    if b != [] {
      assert (a + b)[..|a + b| - 1] == a + b[..|b| - 1];
      EventsAppend(a, b[..|b| - 1]);
    } else {
      assert a + b == a;
    }
  }

  /** A record is kept exactly when some line yields it. */
  lemma {:induction false} EventsMembers(lines: seq<Line>, e: Event)
    ensures e in Events(lines) <==> exists i :: 0 <= i < |lines| && AsEvent(lines[i]) == Some(e)
  {
    if lines != [] {
      var init := lines[..|lines| - 1];
      EventsMembers(init, e);
      assert forall i :: 0 <= i < |init| ==> init[i] == lines[i];
      if e in Events(lines) && e !in Events(init) {
        assert AsEvent(lines[|lines| - 1]) == Some(e);
      }
    }
  }

  /** The lines of several files, read one file after another. */
  function Flatten(files: seq<seq<Line>>): seq<Line> {
    if files == [] then [] else Flatten(files[..|files| - 1]) + files[|files| - 1]
  }

  /**
   * The read loop of the path scripts: every file in turn, every line in turn,
   * appending the record of each usable line.
   */
  method LoadRecords(files: seq<seq<Line>>) returns (records: seq<Event>)
    ensures records == Events(Flatten(files))
  {
    records := [];
    var i := 0;
    while i < |files|
      invariant 0 <= i <= |files|
      invariant records == Events(Flatten(files[..i]))
    {
      var lines := files[i];
      ghost var before := records;
      var j := 0;
      while j < |lines|
        invariant 0 <= j <= |lines|
        invariant records == before + Events(lines[..j])
      {
        assert lines[..j + 1][..j] == lines[..j];
        match AsEvent(lines[j]) {
          case Some(e) => records := records + [e];
          case None =>
        }
        j := j + 1;
      }
      assert lines[..j] == lines;
      assert files[..i + 1][..i] == files[..i];
      EventsAppend(Flatten(files[..i]), lines);
      i := i + 1;
    }
    assert files[..i] == files;
  }
}
