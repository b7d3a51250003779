/** The configuration item table. Each line of the configuration file
    describes one button: a name, whether it may be touched (an integer),
    and a command. The file reading itself is not modelled; the parser runs
    over the lines `fgets` would deliver into its 100-byte buffer. */
module Config {
  import opened Common
  import opened Scan
  import opened Registry

  const ITEMCFG_MAX_NUM := 30

  /** Longest line `fgets` stores in the 100-byte buffer. */
  const LINE_MAX := 99

  datatype ItemCfg = ItemCfg(index: int, name: string, canBeTouched: int, command: string)

  /** The three fields of `sscanf(p, "%99s %d %99s", ...)`. */
  datatype Fields = Fields(name: string, canBeTouched: int, command: string)

  /** All three conversions of the line format; None when fewer than three
      succeed. */
  function ScanFields(p: string): (r: Option<Fields>)
    ensures r.Some? ==> |r.value.name| > 0 && |r.value.command| > 0
    ensures r.Some? ==> forall i :: 0 <= i < |r.value.name| ==> !IsSpace(r.value.name[i])
    ensures r.Some? ==> forall i :: 0 <= i < |r.value.command| ==> !IsSpace(r.value.command[i])
  {
    var first := Word(p);
    if first.None? then None
    else
      var second := Integer(first.value.1);
      if second.None? then None
      else
        var third := Word(second.value.1);
        if third.None? then None
        else Some(Fields(first.value.0, second.value.0, third.value.0))
  }

  /** A line after the leading spaces and tabs have been skipped. */
  function Body(line: string): string {
    SkipBlanks(CStr(line))
  }

  predicate IsComment(line: string) {
    var p := Body(line);
    |p| > 0 && p[0] == '#'
  }

  /** How the parser treats one line. */
  datatype LineKind = Comment | Malformed | Entry(fields: Fields)

  function Classify(line: string): (k: LineKind)
    ensures k == Comment <==> IsComment(line)
    ensures k.Entry? ==> ScanFields(Body(line)) == Some(k.fields)
    ensures k == Malformed ==> ScanFields(Body(line)).None?
  {
    if IsComment(line) then Comment
    else match ScanFields(Body(line))
      case None => Malformed
      case Some(f) => Entry(f)
  }

  /** Leading spaces and tabs do not change how a line is read. */
  lemma BlankIgnored(c: char, line: string)
    requires IsBlank(c)
    ensures Classify([c] + line) == Classify(line)
  {
    BodyBlankIgnored(c, line);
    assert IsComment([c] + line) == IsComment(line);
  }

  lemma BodyBlankIgnored(c: char, line: string)
    requires IsBlank(c)
    ensures Body([c] + line) == Body(line)
  {
    var l := [c] + line;
    assert l[0] == c && l[1..] == line;
    assert CStr(l) == [c] + CStr(line);
    var x := CStr(line);
    assert ([c] + x)[1..] == x;
  }

  /** Every line of the file, classified. */
  function Kinds(lines: seq<string>): (ks: seq<LineKind>)
    ensures |ks| == |lines|
    ensures forall i :: 0 <= i < |lines| ==> ks[i] == Classify(lines[i])
  {
    seq(|lines|, i requires 0 <= i < |lines| => Classify(lines[i]))
  }

  /** The main loop of parse_configfile over the classified lines, from the
      table built so far. The capacity check comes before the scan, so once
      the table is full the next non-comment line ends the parse whatever
      it holds. */
  function ParseFrom(ks: seq<LineKind>, acc: seq<ItemCfg>): seq<ItemCfg>
  {
    if |ks| == 0 then acc
    else match ks[0]
      case Comment => ParseFrom(ks[1..], acc)
      case Malformed =>
        if |acc| >= ITEMCFG_MAX_NUM then acc else ParseFrom(ks[1..], acc)
      case Entry(f) =>
        if |acc| >= ITEMCFG_MAX_NUM then acc
        else ParseFrom(ks[1..], acc + [ItemCfg(|acc|, f.name, f.canBeTouched, f.command)])
  }

  /** parse_configfile over the lines of an opened file. */
  function ParseConfig(lines: seq<string>): (items: seq<ItemCfg>)
    requires forall i :: 0 <= i < |lines| ==> |lines[i]| <= LINE_MAX
    ensures |items| <= ITEMCFG_MAX_NUM
    ensures forall i :: 0 <= i < |items| ==> items[i].index == i
    ensures items == Reference([], Kinds(lines))
  {
    ParseReference(Kinds(lines), []);
    assert Numbered([]) == [];
    ParseFrom(Kinds(lines), [])
  }

  /** Reference reading of the format, independent of the loop: the fields
      of every line that is an entry, in file order. */
  function Accepted(ks: seq<LineKind>): seq<Fields> {
    if |ks| == 0 then []
    else match ks[0]
      case Entry(f) => [f] + Accepted(ks[1..])
      case _ => Accepted(ks[1..])
  }

  /** The table holding `fs` with each item's index its position. */
  function Numbered(fs: seq<Fields>): (items: seq<ItemCfg>)
    ensures |items| == |fs|
  {
    seq(|fs|, i requires 0 <= i < |fs| => ItemCfg(i, fs[i].name, fs[i].canBeTouched, fs[i].command))
  }

  function Min(a: int, b: int): int {
    if a < b then a else b
  }

  /** The first 30 of `fs` followed by the accepted lines, numbered. */
  function Reference(fs: seq<Fields>, ks: seq<LineKind>): seq<ItemCfg> {
    var all := fs + Accepted(ks);
    Numbered(all[..Min(ITEMCFG_MAX_NUM, |all|)])
  }

  /** The parser stores exactly the first 30 accepted lines, numbered in
      order: comments and malformed lines never add an item, every accepted
      line adds one, and reaching a further non-comment line once the table
      is full ends the parse. */
  lemma {:induction false} ParseReference(ks: seq<LineKind>, fs: seq<Fields>)
    requires |fs| <= ITEMCFG_MAX_NUM
    ensures ParseFrom(ks, Numbered(fs)) == Reference(fs, ks)
  {
    if |ks| == 0 {
      assert fs + Accepted(ks) == fs;
    } else {
      var all := fs + Accepted(ks);
      match ks[0]
      case Entry(f) =>
        if |fs| < ITEMCFG_MAX_NUM {
          NumberedSnoc(fs, f);
          ParseReference(ks[1..], fs + [f]);
          assert fs + [f] + Accepted(ks[1..]) == all;
        } else {
          assert all[..ITEMCFG_MAX_NUM] == fs;
        }
      case Comment =>
        ParseReference(ks[1..], fs);
      case Malformed =>
        if |fs| < ITEMCFG_MAX_NUM {
          ParseReference(ks[1..], fs);
        } else {
          assert all[..ITEMCFG_MAX_NUM] == fs;
        }
    }
  }

  lemma NumberedSnoc(fs: seq<Fields>, f: Fields)
    ensures Numbered(fs + [f]) == Numbered(fs) + [ItemCfg(|fs|, f.name, f.canBeTouched, f.command)]
  {
  }

  /** A comment line, wherever it appears, contributes nothing. */
  lemma {:induction false} CommentAddsNothing(before: seq<LineKind>, after: seq<LineKind>)
    ensures Accepted(before + [Comment] + after) == Accepted(before + after)
  {
    var whole := before + [Comment] + after;
    var joined := before + after;
    if |before| == 0 {
      assert whole[0] == Comment && whole[1..] == after;
      assert joined == after;
    } else {
      CommentAddsNothing(before[1..], after);
      assert whole[0] == before[0] && whole[1..] == before[1..] + [Comment] + after;
      assert joined[0] == before[0] && joined[1..] == before[1..] + after;
    }
  }

  /** A configuration line as an editor would write it for `f`: the three
      fields separated by single spaces, ended by a newline. */
  function FormatLine(f: Fields): string {
    f.name + " " + SignedDecimal(f.canBeTouched) + " " + f.command + "\n"
  }

  predicate IsWord(w: string) {
    |w| > 0 && forall i :: 0 <= i < |w| ==> !IsSpace(w[i]) && w[i] != '\0'
  }

  /** Fields that can be written on one line: words without white space or
      NUL, a name that does not start a comment, and a line that fits the
      buffer. */
  predicate Writable(f: Fields) {
    IsWord(f.name) && IsWord(f.command) && f.name[0] != '#' && |FormatLine(f)| <= LINE_MAX
  }

  /** Reading a written line gives back its fields. */
  lemma ScanFormatted(f: Fields)
    requires Writable(f)
    ensures Classify(FormatLine(f)) == Entry(f)
  {
    var line := FormatLine(f);
    FormatLineNoNul(f);
    CStrNoNul(line);
    assert Body(line) == line;
    ScanFieldsFormatted(f);
  }

  lemma ScanFieldsFormatted(f: Fields)
    requires IsWord(f.name) && IsWord(f.command)
    ensures ScanFields(FormatLine(f)) == Some(f)
  {
    var sd := SignedDecimal(f.canBeTouched);
    var tail2 := " " + f.command + "\n";
    var rest1 := " " + sd + tail2;
    assert FormatLine(f) == f.name + rest1;
    WordReads(f.name, rest1);
    IntegerAfterSpace(f.canBeTouched, tail2);
    CommandAfterSpace(f.command);
    ScanFieldsSteps(FormatLine(f), f, rest1, tail2, "\n");
  }

  /** A line whose second field does not start with a sign or a digit
      fails the `%d` conversion, so it is not an entry. */
  lemma MissingNumberRejected(name: string, c: char, tail: string)
    requires IsWord(name)
    requires !IsDigit(c) && !IsSpace(c) && c != '-' && c != '+'
    ensures ScanFields(name + " " + [c] + tail).None?
  {
    var rest1 := [' '] + ([c] + tail);
    assert name + " " + [c] + tail == name + rest1;
    WordReads(name, rest1);
    NoNumberAfterSpace(c, tail);
    NoNumberNoFields(name + rest1, name, rest1);
  }

  lemma NoNumberAfterSpace(c: char, tail: string)
    requires !IsDigit(c) && !IsSpace(c) && c != '-' && c != '+'
    ensures Integer([' '] + ([c] + tail)).None?
  {
    var u := [c] + tail;
    IntegerSkipsSpace(' ', u);
    NoLeadingSpace(u);
    assert u[0] == c;
    assert Digits(u).None?;
    assert SignedDigits(u).None?;
  }

  lemma NoNumberNoFields(p: string, name: string, rest1: string)
    requires Word(p) == Some((name, rest1)) && Integer(rest1).None?
    ensures ScanFields(p).None?
  {
  }

  lemma IntegerAfterSpace(v: int, tail: string)
    requires |tail| > 0 && IsSpace(tail[0])
    ensures Integer(" " + SignedDecimal(v) + tail) == Some((v, tail))
  {
    assert " " + SignedDecimal(v) + tail == [' '] + (SignedDecimal(v) + tail);
    IntegerSkipsSpace(' ', SignedDecimal(v) + tail);
    IntegerReadsDecimal(v, tail);
  }

  lemma CommandAfterSpace(command: string)
    requires IsWord(command)
    ensures Word(" " + command + "\n") == Some((command, "\n"))
  {
    assert " " + command + "\n" == [' '] + (command + "\n");
    WordSkipsSpace(' ', command + "\n");
    WordReads(command, "\n");
  }

  lemma ScanFieldsSteps(p: string, f: Fields, rest1: string, rest2: string, rest3: string)
    requires Word(p) == Some((f.name, rest1))
    requires Integer(rest1) == Some((f.canBeTouched, rest2))
    requires Word(rest2) == Some((f.command, rest3))
    ensures ScanFields(p) == Some(f)
  {
  }

  lemma SignedDecimalNoNul(v: int)
    ensures forall i :: 0 <= i < |SignedDecimal(v)| ==> SignedDecimal(v)[i] != '\0'
  {
    var sd := SignedDecimal(v);
    if v < 0 {
      assert forall i :: 1 <= i < |sd| ==> sd[i] == Decimal(-v)[i - 1];
    }
  }

  lemma FormatLineNoNul(f: Fields)
    requires IsWord(f.name) && IsWord(f.command)
    ensures forall i :: 0 <= i < |FormatLine(f)| ==> FormatLine(f)[i] != '\0'
  {
    var sd := SignedDecimal(f.canBeTouched);
    var line := FormatLine(f);
    SignedDecimalNoNul(f.canBeTouched);
    forall i | 0 <= i < |line|
      ensures line[i] != '\0'
    {
      var n := |f.name|;
      if i < n {
        assert line[i] == f.name[i];
      } else if n < i < n + 1 + |sd| {
        assert line[i] == sd[i - n - 1];
      } else if n + 1 + |sd| < i < |line| - 1 {
        assert line[i] == f.command[i - n - 2 - |sd|];
      }
    }
  }

  /** The lines for a list of fields. */
  function FormatLines(fs: seq<Fields>): (lines: seq<string>)
    ensures |lines| == |fs|
    ensures forall i :: 0 <= i < |fs| ==> lines[i] == FormatLine(fs[i])
  {
    seq(|fs|, i requires 0 <= i < |fs| => FormatLine(fs[i]))
  }

  lemma {:induction false} AcceptedEntries(ks: seq<LineKind>, fs: seq<Fields>)
    requires |ks| == |fs| && forall i :: 0 <= i < |ks| ==> ks[i] == Entry(fs[i])
    ensures Accepted(ks) == fs
  {
    if |ks| > 0 {
      AcceptedEntries(ks[1..], fs[1..]);
      assert [fs[0]] + fs[1..] == fs;
    }
  }

  /** A file written from a list of fields parses back to those fields,
      numbered in order, up to the 30-item capacity. */
  lemma ParseFormatted(fs: seq<Fields>)
    requires forall i :: 0 <= i < |fs| ==> Writable(fs[i])
    ensures forall i :: 0 <= i < |fs| ==> |FormatLines(fs)[i]| <= LINE_MAX
    ensures ParseConfig(FormatLines(fs)) == Numbered(fs[..Min(ITEMCFG_MAX_NUM, |fs|)])
  {
    var lines := FormatLines(fs);
    var ks := Kinds(lines);
    forall i | 0 <= i < |fs|
      ensures ks[i] == Entry(fs[i])
    {
      ScanFormatted(fs[i]);
    }
    AcceptedEntries(ks, fs);
    assert [] + fs == fs;
  }

  /** get_itemcfg_byindex: item `index` when it is below the count, NULL
      otherwise. A negative index reads outside the table in C. */
  function GetItemCfgByIndex(items: seq<ItemCfg>, index: int): (r: Option<ItemCfg>)
    requires index >= 0
    ensures index < |items| <==> r.Some?
    ensures r.Some? ==> r.value == items[index]
  {
    if index < |items| then Some(items[index]) else None
  }

  function ItemName(it: ItemCfg): string {
    it.name
  }

  /** get_itemcfg_byname: the lowest-index item with that name, or NULL. */
  function GetItemCfgByName(items: seq<ItemCfg>, name: string): (r: Option<ItemCfg>)
    ensures r.Some? ==> r.value.name == name
    ensures r.Some? ==> exists i :: 0 <= i < |items| && items[i] == r.value
                          && forall j :: 0 <= j < i ==> items[j].name != name
    ensures r.None? <==> forall j :: 0 <= j < |items| ==> items[j].name != name
  {
    match FindFirst(items, ItemName, name)
    case None => None
    case Some(i) => Some(items[i])
  }
}
