/**
 * scripts/compute_users_per_sub.py: for every dump file, the number of distinct authors
 * per subreddit, labelled with the month read off the file name, written as CSV rows.
 */
module UsersPerSub {
  import opened Base
  import opened Records
  import opened Text
  import opened Paths

  // ---------------------------------------------------------------------------
  // month_from

  predicate Digit(c: char) {
    '0' <= c <= '9'
  }

  /** `\d{4}-\d{2}` matches at position `i` of `s`. */
  predicate MonthAt(s: string, i: nat) {
    && i + 7 <= |s|
    && Digit(s[i]) && Digit(s[i + 1]) && Digit(s[i + 2]) && Digit(s[i + 3])
    && s[i + 4] == '-' && Digit(s[i + 5]) && Digit(s[i + 6])
  }

  /** `re.search` from position `i`: the leftmost match at or after `i`. */
  function FindMonth(s: string, i: nat): (r: Option<nat>)
    ensures r.Some? ==> i <= r.value && MonthAt(s, r.value) && forall j :: i <= j < r.value ==> !MonthAt(s, j)
    ensures r.None? ==> forall j :: i <= j ==> !MonthAt(s, j)
    decreases |s| - i
  {
    if i + 7 > |s| then None
    else if MonthAt(s, i) then Some(i)
    else FindMonth(s, i + 1)
  }

  /** The match `re.search` reports: the leftmost position where the pattern matches. */
  predicate Leftmost(s: string, i: nat) {
    MonthAt(s, i) && forall j: nat :: j < i ==> !MonthAt(s, j)
  }

  /** `month_from(fname)`: the first `YYYY-MM` of the file's base name, or `unknown`. */
  function MonthFrom(fname: string): (m: string)
    ensures m == "unknown" <==> forall i: nat :: !MonthAt(Basename(fname), i)
    ensures m != "unknown" ==> exists i: nat :: Leftmost(Basename(fname), i) && m == Basename(fname)[i..i + 7]
  {
    var b := Basename(fname);
    match FindMonth(b, 0)
    case Some(i) =>
      assert Leftmost(b, i);
      assert b[i..i + 7][0] == b[i] != 'u';
      b[i..i + 7]
    case None => "unknown"
  }

  /** The directory part never contributes: only the base name is searched. */
  lemma MonthFromDirectory(dir: string, name: string)
    requires '/' !in name
    ensures MonthFrom(dir + "/" + name) == MonthFrom(name)
  {
    BasenamePlain(name);
    BasenameAfterSlash(dir, name);
  }

  /** The label is `unknown` or a string of the form `DDDD-DD`. */
  lemma MonthShape(fname: string)
    ensures MonthFrom(fname) == "unknown" || (|MonthFrom(fname)| == 7 && MonthAt(MonthFrom(fname), 0))
  {
    var b := Basename(fname);
    match FindMonth(b, 0)
    case None =>
    case Some(i) =>
      var m := b[i..i + 7];
      assert MonthFrom(fname) == m;
      assert m[0] == b[i] && m[1] == b[i + 1] && m[2] == b[i + 2] && m[3] == b[i + 3];
      assert m[4] == b[i + 4] && m[5] == b[i + 5] && m[6] == b[i + 6];
  }

  // ---------------------------------------------------------------------------
  // The per-file count

  /** The `subs` defaultdict: its keys in insertion order, and each key's author set. */
  datatype Subs = Subs(order: seq<string>, users: map<string, set<string>>)

  /**
   * One line: a line that does not decode or has no `subreddit` is skipped; otherwise the
   * subreddit's entry is created if new, and then the author, if present, added to it.
   */
  function Step(st: Subs, l: Line): Subs {
    match l.json
    case None => st
    case Some(obj) =>
      if obj.subreddit.None? then st
      else
        var s := obj.subreddit.value;
        var st1 := if s in st.users then st else Subs(st.order + [s], st.users[s := {}]);
        if obj.author.None? then st1
        else Subs(st1.order, st1.users[s := st1.users[s] + {obj.author.value}])
  }

  /** The defaultdict after the lines `ls`. */
  function Tally(ls: seq<Line>): Subs {
    if ls == [] then Subs([], map[]) else Step(Tally(ls[..|ls| - 1]), ls[|ls| - 1])
  }

  /** A decoded line with a `subreddit` key equal to `s`. */
  predicate OnSub(l: Line, s: string) {
    l.json.Some? && l.json.value.subreddit == Some(s)
  }

  /** The authors seen with subreddit `s` on the decoded lines of `ls`. */
  function AuthorsOn(ls: seq<Line>, s: string): set<string> {
    set i | 0 <= i < |ls| && OnSub(ls[i], s) && ls[i].json.value.author.Some? :: ls[i].json.value.author.value
  }

  lemma AuthorsOnSnoc(ls: seq<Line>, s: string)
    requires ls != []
    ensures var n := |ls| - 1;
            AuthorsOn(ls, s) == AuthorsOn(ls[..n], s)
              + if OnSub(ls[n], s) && ls[n].json.value.author.Some? then {ls[n].json.value.author.value} else {}
  {
    var n := |ls| - 1;
    assert forall i :: 0 <= i < n ==> ls[..n][i] == ls[i];
  }

  /** The dict's keys, in insertion order, each once. */
  lemma {:induction false} TallyOrder(ls: seq<Line>)
    ensures Distinct(Tally(ls).order) && Elems(Tally(ls).order) == Tally(ls).users.Keys
  {
    if ls != [] {
      var n := |ls| - 1;
      TallyOrder(ls[..n]);
      var t0 := Tally(ls[..n]);
      if ls[n].json.Some? && ls[n].json.value.subreddit.Some? {
        var s := ls[n].json.value.subreddit.value;
        if s !in t0.users {
          assert s !in t0.order;
          assert Elems(t0.order + [s]) == Elems(t0.order) + {s};
        }
      }
    }
  }

  /** A subreddit has an entry exactly when some decoded line has it as `subreddit`. */
  lemma {:induction false} TallyKey(ls: seq<Line>, s: string)
    ensures s in Tally(ls).users <==> exists i :: 0 <= i < |ls| && OnSub(ls[i], s)
  {
    if ls != [] {
      var n := |ls| - 1;
      TallyKey(ls[..n], s);
      assert forall i :: 0 <= i < n ==> ls[..n][i] == ls[i];
    }
  }

  /** Each entry holds exactly the authors seen with its subreddit. */
  lemma {:induction false} TallyUsers(ls: seq<Line>, s: string)
    requires s in Tally(ls).users
    ensures Tally(ls).users[s] == AuthorsOn(ls, s)
  {
    var n := |ls| - 1;
    var t0 := Tally(ls[..n]);
    AuthorsOnSnoc(ls, s);
    if s in t0.users {
      TallyUsers(ls[..n], s);
    } else {
      TallyKey(ls[..n], s);
      assert AuthorsOn(ls[..n], s) == {};
    }
  }

  /** A comment with a subreddit but no author still opens that subreddit's entry, with no one in it. */
  lemma EntryWithoutAuthor(l: Line)
    requires l.json.Some? && l.json.value.subreddit.Some? && l.json.value.author.None?
    ensures var s := l.json.value.subreddit.value;
            Tally([l]) == Subs([s], map[s := {}])
  {
    assert [l][..0] == [];
  }

  /** The loop over one file's lines, updating the defaultdict. */
  method CountFile(lines: seq<Line>) returns (order: seq<string>, subs: map<string, set<string>>)
    ensures Subs(order, subs) == Tally(lines)
  {
    order, subs := [], map[];
    for j := 0 to |lines|
      invariant Subs(order, subs) == Tally(lines[..j])
    {
      assert lines[..j + 1][..j] == lines[..j];
      match lines[j].json {
        case None =>
        case Some(obj) =>
          if obj.subreddit.Some? {
            var s := obj.subreddit.value;
            if s !in subs {
              order := order + [s];
              subs := subs[s := {}];
            }
            if obj.author.Some? {
              subs := subs[s := subs[s] + {obj.author.value}];
            }
          }
      }
    }
    assert lines[..|lines|] == lines;
  }

  // ---------------------------------------------------------------------------
  // Rows and the script

  /** `(month, sub, len(users))`. */
  datatype Row = Row(month: string, subreddit: string, total: nat)

  /** A dump file: its path and its decoded lines. */
  datatype File = File(path: string, lines: seq<Line>)

  /** The rows of one file, one per subreddit in the order the subreddits first appear. */
  function FileRows(f: File): (rows: seq<Row>)
    ensures |rows| == |Tally(f.lines).order|
  {
    var t := Tally(f.lines);
    TallyOrder(f.lines);
    seq(|t.order|, k requires 0 <= k < |t.order| => Row(MonthFrom(f.path), t.order[k], |t.users[t.order[k]]|))
  }

  /** Each row carries the file's month label and the number of distinct authors seen with its subreddit. */
  lemma FileRowsTotals(f: File)
    ensures forall k :: 0 <= k < |FileRows(f)| ==>
              FileRows(f)[k].month == MonthFrom(f.path) && FileRows(f)[k].total == |AuthorsOn(f.lines, FileRows(f)[k].subreddit)|
  {
    var rows := FileRows(f);
    var t := Tally(f.lines);
    TallyOrder(f.lines);
    forall k | 0 <= k < |rows| ensures rows[k].total == |AuthorsOn(f.lines, rows[k].subreddit)| {
      assert t.order[k] in Elems(t.order);
      TallyUsers(f.lines, t.order[k]);
    }
  }

  /** The rows name each subreddit of a decoded line of the file, each exactly once. */
  lemma FileRowsSubs(f: File, s: string)
    ensures (exists k :: 0 <= k < |FileRows(f)| && FileRows(f)[k].subreddit == s) <==>
              exists i :: 0 <= i < |f.lines| && OnSub(f.lines[i], s)
    ensures forall j, k :: 0 <= j < k < |FileRows(f)| ==> FileRows(f)[j].subreddit != FileRows(f)[k].subreddit
  {
    var rows := FileRows(f);
    var t := Tally(f.lines);
    TallyOrder(f.lines);
    TallyKey(f.lines, s);
    if s in t.users {
      assert s in Elems(t.order);
      var k :| 0 <= k < |t.order| && t.order[k] == s;
      assert rows[k].subreddit == s;
    }
  }

  /** `rows`: the rows of every file, file after file. */
  function AllRows(files: seq<File>): seq<Row> {
    if files == [] then [] else AllRows(files[..|files| - 1]) + FileRows(files[|files| - 1])
  }

  /** A file of one comment yields one row, counting its author if it has one. */
  lemma OneLineRows(path: string, l: Line)
    requires l.json.Some? && l.json.value.subreddit.Some?
    ensures FileRows(File(path, [l]))
         == [Row(MonthFrom(path), l.json.value.subreddit.value, if l.json.value.author.Some? then 1 else 0)]
  {
    assert [l][..|[l]| - 1] == [];
    var t := Tally([l]);
    assert t == Step(Tally([]), l);
    var s := l.json.value.subreddit.value;
    var c := if l.json.value.author.Some? then 1 else 0;
    assert t.order == [s];
    assert |t.users[s]| == c;
    var rows := FileRows(File(path, [l]));
    assert |rows| == 1;
    assert rows[0] == Row(MonthFrom(path), s, c);
  }

  /** Two files with the same month label are not merged: each contributes its own row. */
  lemma SameMonthTwoRows(p1: string, p2: string, l: Line)
    requires MonthFrom(p1) == MonthFrom(p2)
    requires l.json.Some? && l.json.value.subreddit.Some?
    ensures var r := Row(MonthFrom(p1), l.json.value.subreddit.value, if l.json.value.author.Some? then 1 else 0);
            AllRows([File(p1, [l]), File(p2, [l])]) == [r, r]
  {
    var files := [File(p1, [l]), File(p2, [l])];
    assert files[..|files| - 1] == [File(p1, [l])];
    assert [File(p1, [l])][..0] == [];
    assert AllRows(files) == AllRows([File(p1, [l])]) + FileRows(File(p2, [l]));
    assert AllRows([File(p1, [l])]) == AllRows([]) + FileRows(File(p1, [l]));
    OneLineRows(p1, l);
    OneLineRows(p2, l);
  }

  /** Adding a comment with a subreddit but no author opens that subreddit's row at zero. */
  lemma EmptyRow(path: string, l: Line)
    requires l.json.Some? && l.json.value.subreddit.Some? && l.json.value.author.None?
    ensures FileRows(File(path, [l])) == [Row(MonthFrom(path), l.json.value.subreddit.value, 0)]
  {
    OneLineRows(path, l);
  }

  /** The per-file part of the loop: the count, then one row appended per dict entry. */
  method AppendRows(before: seq<Row>, f: File) returns (rows: seq<Row>)
    ensures rows == before + FileRows(f)
  {
    var month := MonthFrom(f.path);
    var order, subs := CountFile(f.lines);
    TallyOrder(f.lines);
    ghost var want := FileRows(f);
    assert |want| == |order|;
    rows := before;
    for k := 0 to |order|
      invariant rows == before + want[..k]
    {
      assert order[k] in Elems(order);
      var row := Row(month, order[k], |subs[order[k]]|);
      assert want[k] == row;
      PrefixStep(want, k);
      rows := rows + [row];
    }
    assert want[..|order|] == want;
  }

  lemma PrefixStep<T>(s: seq<T>, k: nat)
    requires k < |s|
    ensures s[..k + 1] == s[..k] + [s[k]]
  {
  }

  // ---------------------------------------------------------------------------
  // The CSV text

  /** The decimal digits of `n`, as f-string formatting writes an int. */
  function ShowNat(n: nat): (s: string)
    ensures s != [] && forall k :: 0 <= k < |s| ==> Digit(s[k])
  {
    if n < 10 then [DigitChar(n)] else ShowNat(n / 10) + [DigitChar(n % 10)]
  }

  function DigitChar(d: nat): (c: char)
    requires d < 10
    ensures Digit(c) && DigitValue(c) == d
  {
    (('0' as int) + d) as char
  }

  function DigitValue(c: char): (d: nat)
    requires Digit(c)
    ensures d < 10
  {
    (c as int) - ('0' as int)
  }

  /** Reading decimal digits back. */
  function ReadNat(s: string): nat
    requires forall k :: 0 <= k < |s| ==> Digit(s[k])
  {
    if s == [] then 0 else 10 * ReadNat(s[..|s| - 1]) + DigitValue(s[|s| - 1])
  }

  /** The count written is the count read back. */
  lemma {:induction false} ReadShow(n: nat)
    ensures ReadNat(ShowNat(n)) == n
  {
    if n >= 10 {
      ReadShow(n / 10);
      var s := ShowNat(n);
      assert s[..|s| - 1] == ShowNat(n / 10);
    }
  }

  /** `f"{m},{s},{n}"`. */
  function RowLine(r: Row): string {
    r.month + "," + r.subreddit + "," + ShowNat(r.total)
  }

  function RowLines(rows: seq<Row>): (ls: seq<string>)
    ensures |ls| == |rows| && forall k :: 0 <= k < |rows| ==> ls[k] == RowLine(rows[k])
  {
    seq(|rows|, k requires 0 <= k < |rows| => RowLine(rows[k]))
  }

  lemma RowLinesStep(rows: seq<Row>, k: nat)
    requires k < |rows|
    ensures RowLines(rows[..k + 1]) == RowLines(rows[..k]) + [RowLine(rows[k])]
  {
  }

  const Header: string := "month,subreddit,users_total"

  /** The output file: the header, then one line per row, each line terminated. */
  function Csv(rows: seq<Row>): string {
    JoinTerminated([Header] + RowLines(rows), '\n')
  }

  /**
   * When no month label or subreddit holds a newline, the file's lines are the header and
   * then exactly one line per row, in row order.
   */
  lemma CsvLines(rows: seq<Row>)
    requires forall k :: 0 <= k < |rows| ==> '\n' !in rows[k].month && '\n' !in rows[k].subreddit
    ensures SplitOn(Csv(rows), '\n') == [Header] + RowLines(rows) + [[]]
  {
    var xs := [Header] + RowLines(rows);
    assert '\n' !in Header by {
      assert forall k :: 0 <= k < |Header| ==> Header[k] != '\n';
    }
    forall i | 0 <= i < |xs + [[]]| ensures '\n' !in (xs + [[]])[i] {
      if 1 <= i < |xs| {
        RowLineFree(rows[i - 1]);
      }
    }
    JoinTerminatedIsJoin(xs, '\n');
    SplitJoin(xs + [[]], '\n');
  }

  lemma RowLineFree(r: Row)
    requires '\n' !in r.month && '\n' !in r.subreddit
    ensures '\n' !in RowLine(r)
  {
    var d := ShowNat(r.total);
    assert '\n' !in d by {
      assert forall k :: 0 <= k < |d| ==> d[k] != '\n';
    }
    assert RowLine(r) == r.month + "," + r.subreddit + "," + d;
  }

  /** The writing loop: the header, then each row's line. */
  method WriteCsv(rows: seq<Row>) returns (text: string)
    ensures text == Csv(rows)
  {
    text := Header + "\n";
    for k := 0 to |rows|
      invariant text == Header + "\n" + JoinTerminated(RowLines(rows[..k]), '\n')
    {
      RowLinesStep(rows, k);
      JoinTerminatedAppend(RowLines(rows[..k]), [RowLine(rows[k])], '\n');
      text := text + RowLine(rows[k]) + "\n";
    }
    assert rows[..|rows|] == rows;
  }

  /** The script: every file (glob patterns already expanded) in turn, then the CSV. */
  method Run(files: seq<File>) returns (rows: seq<Row>, csv: string)
    ensures rows == AllRows(files) && csv == Csv(rows)
  {
    rows := [];
    for i := 0 to |files|
      invariant rows == AllRows(files[..i])
    {
      rows := AppendRows(rows, files[i]);
      assert files[..i + 1][..i] == files[..i];
    }
    assert files[..|files|] == files;
    csv := WriteCsv(rows);
  }
}
