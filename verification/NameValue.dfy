/** The configuration file: its parser and printer (namevalueparser.cc) and the access to its variables
    (namevalueconfig.cc), in the mode that keeps every line of the file. */
module NameValue {
  import opened Bytes

  const LINE_SIZE := 2048
  const GENERATED := "# Generated on: "

  datatype DataType = Variable | Comment | EmptyLine

  datatype Line = Line(kind: DataType, text: string)

  /** The two members that hold the configuration. */
  datatype Data = Data(lines: seq<Line>, values: map<string, string>)

  // ---------- Strings ----------

  predicate Blank(c: char) {
    c == ' ' || c == '\t'
  }

  function TrimLeft(s: string): (t: string)
    ensures |t| <= |s| && (t == "" || !Blank(t[0])) && t == s[|s| - |t|..]
    ensures forall i :: 0 <= i < |s| - |t| ==> Blank(s[i])
  {
    if s == "" then "" else if Blank(s[0]) then TrimLeft(s[1..]) else s
  }

  function TrimRight(s: string): (t: string)
    ensures t <= s && (t == "" || !Blank(t[|t| - 1]))
    ensures forall i :: |t| <= i < |s| ==> Blank(s[i])
  {
    if s == "" then "" else if Blank(s[|s| - 1]) then TrimRight(s[..|s| - 1]) else s
  }

  function Trim(s: string): string {
    TrimRight(TrimLeft(s))
  }

  predicate IsTrimmed(s: string) {
    s != "" ==> !Blank(s[0]) && !Blank(s[|s| - 1])
  }

  /** t is what lies in s from k on, and around it there are only blanks. */
  ghost predicate Framed(s: string, t: string, k: nat) {
    && k + |t| <= |s| && t == s[k..k + |t|]
    && forall i :: 0 <= i < |s| && !(k <= i < k + |t|) ==> Blank(s[i])
  }

  /** Trimming takes blanks off both ends, all of them and nothing else. */
  lemma TrimMeaning(s: string)
    ensures IsTrimmed(Trim(s)) && (exists k: nat :: Framed(s, Trim(s), k))
    ensures IsTrimmed(s) ==> Trim(s) == s
  {
    hide TrimLeft, TrimRight;
    var left := TrimLeft(s);
    var k := |s| - |left|;
    assert forall i :: k <= i < |s| ==> s[i] == left[i - k];
    assert Framed(s, Trim(s), k);
  }

  /** What a C function sees of stored characters. */
  function CString(s: string): string {
    s[..IndexOf(s, '\0')]
  }

  /** Leading spaces; tabs are not skipped. */
  function Indent(s: string): (n: nat)
    ensures n <= |s| && (n < |s| ==> s[n] != ' ') && forall i :: 0 <= i < n ==> s[i] == ' '
  {
    if s == "" || s[0] != ' ' then 0 else 1 + Indent(s[1..])
  }

  function SkipEquals(s: string): (t: string)
    ensures |t| <= |s| && (t == "" || t[0] != '=') && t == s[|s| - |t|..]
  {
    if s == "" || s[0] != '=' then s else SkipEquals(s[1..])
  }

  // ---------- Reading ----------

  /** The lines of a file; the last one ends with the file instead of a newline. */
  function Lines(file: string): (lines: seq<string>)
    ensures |lines| >= 1
  {
    var n := IndexOf(file, '\n');
    if n == |file| then [file] else [file[..n]] + Lines(file[n + 1..])
  }

  datatype Entry = NoText | Remark(text: string) | Pair(name: string, value: string) | Malformed

  /** A line from its first non-space on: strtok passes over any leading equals signs, takes the name up
      to the next one or the end, and the value is all that is left. */
  function Classify(text: string): Entry {
    if text == "" then NoText
    else if text[0] == '#' then Remark(text)
    else
      var s := SkipEquals(text);
      if s == "" then Malformed
      else
        var n := IndexOf(s, '=');
        Pair(s[..n], if n < |s| then s[n + 1..] else "")
  }

  function Add(d: Data, entry: Entry): Data {
    match entry
    case NoText => d.(lines := d.lines + [Line(EmptyLine, "")])
    case Remark(text) => d.(lines := d.lines + [Line(Comment, text)])
    case Pair(name, value) =>
      if Trim(name) == "" then d
      else Data(d.lines + [Line(Variable, Trim(name))], d.values[Trim(name) := Trim(value)])
    case Malformed => d
  }

  /** Endless: a line too long fails the stream, which never reaches its end again. Overflow: the line
      buffer is overrun, because the spaces skipped on earlier lines are never given back. */
  datatype Outcome = Done | OpenFailed | BadConfigFile | Overflow | Endless

  /** Reading lines into d with the line buffer starting offset characters late. */
  function ReadFrom(lines: seq<string>, offset: nat, d: Data): (Outcome, Data) {
    if lines == [] then (Done, d)
    else
      var stored := Stored(lines[0]);
      if offset + |stored| + 1 > LINE_SIZE then (Overflow, d)
      else
        var text := CString(stored);
        var entry := Classify(text[Indent(text)..]);
        if entry.Malformed? then (BadConfigFile, d)
        else if |lines[0]| >= LINE_SIZE then (Endless, Add(d, entry))
        else ReadFrom(lines[1..], offset + Indent(text), Add(d, entry))
  }

  lemma ReadOneMore(lines: seq<string>, offset: nat, d: Data)
    requires lines != []
    ensures ReadFrom(lines, offset, d) ==
            var stored := Stored(lines[0]);
            var text := CString(stored);
            var entry := Classify(text[Indent(text)..]);
            if offset + |stored| + 1 > LINE_SIZE then (Overflow, d)
            else if entry.Malformed? then (BadConfigFile, d)
            else if |lines[0]| >= LINE_SIZE then (Endless, Add(d, entry))
            else ReadFrom(lines[1..], offset + Indent(text), Add(d, entry))
  {
  }

  lemma ReadNoMore(lines: seq<string>, offset: nat, d: Data)
    requires |lines| == 0
    ensures ReadFrom(lines, offset, d) == (Done, d)
  {
  }

  function Stored(line: string): string {
    if |line| < LINE_SIZE then line else line[..LINE_SIZE - 1]
  }

  const NOTHING := Data([], map[])

  // ---------- Writing ----------

  function WithStamp(text: string, stamp: string): string {
    if GENERATED <= text then GENERATED + stamp else text
  }

  /** The lines printed for one line of the list: none for a variable that has no value. */
  function Printed(line: Line, values: map<string, string>, stamp: string): seq<string> {
    match line.kind
    case Variable => if line.text in values then [line.text + "=" + values[line.text]] else []
    case Comment => [WithStamp(line.text, stamp)]
    case EmptyLine => [""]
  }

  function AllPrinted(lines: seq<Line>, values: map<string, string>, stamp: string): seq<string> {
    if lines == [] then [] else Printed(lines[0], values, stamp) + AllPrinted(lines[1..], values, stamp)
  }

  function Joined(texts: seq<string>): string {
    if texts == [] then "" else texts[0] + "\n" + Joined(texts[1..])
  }

  // ---------- The data ----------

  /** The variables named in the list are the ones that have a value. */
  ghost predicate Consistent(d: Data) {
    forall name :: name in d.values <==> Line(Variable, name) in d.lines
  }

  predicate OneLine(s: string) {
    '\n' !in s && '\0' !in s
  }

  predicate CleanName(name: string) {
    name != "" && IsTrimmed(name) && OneLine(name) && '=' !in name
  }

  predicate CleanLine(line: Line) {
    match line.kind
    case Variable => CleanName(line.text)
    case Comment => line.text != "" && line.text[0] == '#' && OneLine(line.text)
    case EmptyLine => line.text == ""
  }

  /** What reading guarantees about the data. */
  ghost predicate Clean(d: Data) {
    && Consistent(d)
    && (forall i :: 0 <= i < |d.lines| ==> CleanLine(d.lines[i]))
    && (forall name :: name in d.values ==> IsTrimmed(d.values[name]) && OneLine(d.values[name]))
  }

  /** Every name but the given one has the value it had, or still none. */
  ghost predicate SameBut(name: string, was: map<string, string>, now: map<string, string>) {
    && was.Keys - {name} == now.Keys - {name}
    && forall other :: other in was && other != name ==> other in now && now[other] == was[other]
  }

  // ---------- The parser and the configuration ----------

  class NameValueParser {
    var nameValue: map<string, string>
    var fullFileData: seq<Line>

    ghost function Held(): Data
      reads this
    {
      Data(fullFileData, nameValue)
    }

    constructor ()
      ensures Held() == NOTHING
    {
      nameValue, fullFileData := map[], [];
    }

    method AddEmptyLine()
      modifies this`fullFileData
      ensures Held() == Add(old(Held()), NoText)
      ensures fullFileData == old(fullFileData) + [Line(EmptyLine, "")]
    {
      fullFileData := fullFileData + [Line(EmptyLine, "")];
    }

    method AddComment(text: string)
      modifies this`fullFileData
      ensures Held() == Add(old(Held()), Remark(text))
      ensures fullFileData == old(fullFileData) + [Line(Comment, text)]
    {
      fullFileData := fullFileData + [Line(Comment, text)];
    }

    method AddNameValue(aName: string, aValue: string)
      modifies this
      ensures Held() == Add(old(Held()), Pair(aName, aValue))
      ensures Trim(aName) == "" ==> Held() == old(Held())
      ensures Trim(aName) != "" ==>
                && fullFileData == old(fullFileData) + [Line(Variable, Trim(aName))]
                && Trim(aName) in nameValue && nameValue[Trim(aName)] == Trim(aValue)
                && SameBut(Trim(aName), old(nameValue), nameValue)
    {
      hide Trim;
      var name, value := Trim(aName), Trim(aValue);
      if name != "" {
        fullFileData := fullFileData + [Line(Variable, name)];
        nameValue := nameValue[name := value];
      }
    }

    /** istream::getline into a buffer of the line size; failed: it stopped inside a line. */
    static method GetLine(file: string, pos: nat) returns (stored: string, next: nat, eof: bool, failed: bool)
      requires pos <= |file|
      ensures var line, rest := Lines(file[pos..])[0], Lines(file[pos..])[1..];
              && stored == Stored(line)
              && (eof <==> |line| < LINE_SIZE && rest == [])
              && (failed <==> |line| >= LINE_SIZE)
              && (|line| < LINE_SIZE && !eof ==> pos < next <= |file| && Lines(file[next..]) == rest)
    {
      var i := 0;
      while i < LINE_SIZE - 1 && pos + i < |file| && file[pos + i] != '\n'
        invariant 0 <= i < LINE_SIZE && pos + i <= |file| && '\n' !in file[pos..pos + i]
      {
        i := i + 1;
      }
      stored := file[pos..pos + i];
      eof := pos + i == |file|;
      failed := !eof && file[pos + i] != '\n';
      next := if eof then |file| else pos + i + 1;
      ghost var s := file[pos..];
      assert s[..i] == stored;
      if !failed {
        IndexOfIs(s, '\n', i);
        assert !eof ==> s[i + 1..] == file[next..];
      } else {
        assert forall k :: 0 <= k < i ==> s[k] in stored;
      }
    }

    /** One line in the buffer. The spaces in front are passed over for good. */
    method TakeLine(stored: string) returns (wellFormed: bool, skipped: nat)
      modifies this
      ensures var text := CString(stored); var entry := Classify(text[Indent(text)..]);
              && skipped == Indent(text) && wellFormed == !entry.Malformed?
              && Held() == Add(old(Held()), entry)
      ensures !wellFormed ==> Held() == old(Held())
    {
      hide Trim, CString, SameBut, IndexOf;
      var text := CString(stored);
      skipped := 0;
      while skipped < |text| && text[skipped] == ' '
        invariant skipped <= Indent(text)
      {
        skipped := skipped + 1;
      }
      var buffer := text[skipped..];
      wellFormed := true;
      if buffer == "" {
        AddEmptyLine();
      } else if buffer[0] == '#' {
        AddComment(buffer);
      } else {
        var s := SkipEquals(buffer);
        if s == "" {
          wellFormed := false;
        } else {
          var n := IndexOf(s, '=');
          AddNameValue(s[..n], if n < |s| then s[n + 1..] else "");
        }
      }
    }

    /** One turn of the reading loop; Done means that the loop goes on. */
    method ReadOneLine(file: string, pos: nat, buffer: nat) returns (outcome: Outcome, ahead: nat, next: nat, eof: bool)
      requires pos <= |file|
      modifies this
      ensures outcome != Done ==> ReadFrom(Lines(file[pos..]), buffer, old(Held())) == (outcome, Held())
      ensures outcome == Done && eof ==> ReadFrom(Lines(file[pos..]), buffer, old(Held())) == (Done, Held())
      ensures outcome == Done && !eof ==>
        && pos < next <= |file|
        && ReadFrom(Lines(file[pos..]), buffer, old(Held())) == ReadFrom(Lines(file[next..]), ahead, Held())
    {
      hide Lines, Classify, Add, CString, Indent, ReadFrom;
      ghost var lines := Lines(file[pos..]);
      ReadOneMore(lines, buffer, Held());
      ahead := buffer;
      var stored, failed;
      stored, next, eof, failed := GetLine(file, pos);
      if buffer + |stored| + 1 > LINE_SIZE {
        return Overflow, ahead, next, eof;
      }
      var wellFormed, skipped := TakeLine(stored);
      ahead := buffer + skipped;
      ReadNoMore(lines[|lines|..], ahead, Held());
      outcome := if !wellFormed then BadConfigFile else if failed then Endless else Done;
    }

    /** file: the contents, if the file can be opened. */
    method ReadConfigurationData(canOpen: bool, file: string) returns (outcome: Outcome)
      modifies this
      ensures !canOpen ==> outcome == OpenFailed && Held() == old(Held())
      ensures canOpen ==> (outcome, Held()) == ReadFrom(Lines(file), 0, NOTHING)
    {
      hide Lines, ReadFrom;
      if !canOpen {
        return OpenFailed;
      }
      nameValue, fullFileData := map[], [];
      var buffer: nat, pos, eof := 0, 0, false;
      outcome := Done;
      assert file[0..] == file;
      while !eof
        invariant pos <= |file| && outcome == Done
        invariant ReadFrom(Lines(file), 0, NOTHING) ==
                  if eof then (Done, Held()) else ReadFrom(Lines(file[pos..]), buffer, Held())
        decreases |file| - pos, !eof
      {
        var next;
        outcome, buffer, next, eof := ReadOneLine(file, pos, buffer);
        if outcome != Done {
          return;
        }
        pos := if eof then pos else next;
      }
    }

    /** stamp: the time of writing, as printed after the generation mark. */
    method WriteConfigurationData(canOpen: bool, stamp: string) returns (ok: bool, file: string)
      ensures ok == canOpen
      ensures ok ==> file == Joined(AllPrinted(fullFileData, nameValue, stamp))
    {
      if !canOpen {
        return false, "";
      }
      file := "";
      var i := 0;
      assert fullFileData[0..] == fullFileData;
      while i < |fullFileData|
        invariant 0 <= i <= |fullFileData|
        invariant file + Joined(AllPrinted(fullFileData[i..], nameValue, stamp))
               == Joined(AllPrinted(fullFileData, nameValue, stamp))
      {
        hide Joined, AllPrinted;
        PrintOne(fullFileData[i..], nameValue, stamp, file);
        var line := fullFileData[i];
        match line.kind {
          case Variable =>
            if line.text in nameValue {
              file := file + (line.text + "=" + nameValue[line.text] + "\n");
            }
          case Comment =>
            if GENERATED <= line.text {
              file := file + (GENERATED + stamp + "\n");
            } else {
              file := file + (line.text + "\n");
            }
          case EmptyLine =>
            file := file + "\n";
        }
        i := i + 1;
      }
      ok := true;
    }
  }

  lemma PrintOne(lines: seq<Line>, values: map<string, string>, stamp: string, file: string)
    requires lines != []
    ensures var p := Printed(lines[0], values, stamp);
            && |p| <= 1
            && file + Joined(AllPrinted(lines, values, stamp)) ==
               (if p == [] then file else file + (p[0] + "\n")) + Joined(AllPrinted(lines[1..], values, stamp))
    ensures Printed(Line(EmptyLine, ""), values, stamp)[0] + "\n" == "\n"
  {
    var p, others := Printed(lines[0], values, stamp), AllPrinted(lines[1..], values, stamp);
    if p == [] {
      assert p + others == others;
    } else {
      hide Printed;
      assert p == [p[0]];
      JoinedCons(p[0], others);
      Associates(file, p[0] + "\n", Joined(others));
    }
  }

  lemma JoinedCons(first: string, others: seq<string>)
    ensures Joined([first] + others) == first + "\n" + Joined(others)
  {
  }

  predicate Mentioned(lines: seq<Line>, text: string) {
    exists i :: 0 <= i < |lines| && lines[i].text == text
  }

  /** list::remove: every element equal to the given one goes. */
  function Without(lines: seq<Line>, line: Line): (rest: seq<Line>)
    ensures forall other :: other in rest <==> other in lines && other != line
  {
    if lines == [] then []
    else (if lines[0] == line then [] else [lines[0]]) + Without(lines[1..], line)
  }

  /** The places of some lines in a list, from first to last. */
  ghost predicate StandAt(rest: seq<Line>, lines: seq<Line>, ks: seq<nat>) {
    && |ks| == |rest|
    && (forall i :: 0 <= i < |ks| ==> ks[i] < |lines| && rest[i] == lines[ks[i]])
    && (forall i, j :: 0 <= i < j < |ks| ==> ks[i] < ks[j])
  }

  /** The given line is gone wherever it stood, and all others are there as often and in the same order. */
  ghost predicate TakenOut(lines: seq<Line>, rest: seq<Line>, line: Line, ks: seq<nat>) {
    StandAt(rest, lines, ks) && multiset(rest) == multiset(lines)[line := 0]
  }

  function Later(ks: seq<nat>): (later: seq<nat>)
    ensures |later| == |ks| && forall i :: 0 <= i < |ks| ==> later[i] == ks[i] + 1
  {
    seq(|ks|, i requires 0 <= i < |ks| => ks[i] + 1)
  }

  lemma FirstTaken(lines: seq<Line>, rest: seq<Line>, line: Line, ks: seq<nat>)
    requires lines != [] && lines[0] == line && TakenOut(lines[1..], rest, line, ks)
    ensures TakenOut(lines, rest, line, Later(ks))
  {
    assert lines == [line] + lines[1..];
  }

  lemma FirstKept(lines: seq<Line>, rest: seq<Line>, line: Line, ks: seq<nat>)
    requires lines != [] && lines[0] != line && TakenOut(lines[1..], rest, line, ks)
    ensures TakenOut(lines, [lines[0]] + rest, line, [0] + Later(ks))
  {
    StandLater(lines, rest, ks);
    hide StandAt;
    assert lines == [lines[0]] + lines[1..];
  }

  lemma StandLater(lines: seq<Line>, rest: seq<Line>, ks: seq<nat>)
    requires lines != [] && StandAt(rest, lines[1..], ks)
    ensures StandAt([lines[0]] + rest, lines, [0] + Later(ks))
  {
  }

  lemma {:induction false} WithoutMeaning(lines: seq<Line>, line: Line) returns (ks: seq<nat>)
    ensures TakenOut(lines, Without(lines, line), line, ks)
  {
    if lines == [] {
      ks := [];
    } else {
      var others := WithoutMeaning(lines[1..], line);
      hide TakenOut, Later;
      if lines[0] == line {
        FirstTaken(lines, Without(lines[1..], line), line, others);
        ks := Later(others);
        assert Without(lines, line) == Without(lines[1..], line);
      } else {
        FirstKept(lines, Without(lines[1..], line), line, others);
        ks := [0] + Later(others);
      }
    }
  }

  datatype Edit = Assign(name: string, value: string) | Erase(name: string)

  function Edited(d: Data, edit: Edit): Data {
    match edit
    case Assign(name, value) =>
      Data(if Mentioned(d.lines, name) then d.lines else d.lines + [Line(Variable, name)], d.values[name := value])
    case Erase(name) =>
      Data(Without(d.lines, Line(Variable, name)), d.values - {name})
  }

  /** What a caller is told of a variable. */
  function Got(d: Data, name: string): string {
    if name in d.values then d.values[name] else ""
  }

  predicate Concerns(edit: Edit, name: string) {
    edit.name == name
  }

  ghost predicate LastOf(edits: seq<Edit>, k: nat, name: string) {
    k < |edits| && Concerns(edits[k], name) && forall m :: k < m < |edits| ==> !Concerns(edits[m], name)
  }

  ghost predicate NoneOf(edits: seq<Edit>, name: string) {
    forall k :: 0 <= k < |edits| ==> !Concerns(edits[k], name)
  }

  /** A caller gets what was last set, and nothing after a removal. */
  lemma {:induction false} LastEditCounts(d: Data, edits: seq<Edit>, name: string, k: nat)
    requires LastOf(edits, k, name)
    ensures Got(AllEdited(d, edits), name) == if edits[k].Assign? then edits[k].value else ""
    decreases |edits|
  {
    var others := edits[1..];
    OneEditCounts(d, edits[0], name);
    assert forall m :: 0 <= m < |others| ==> others[m] == edits[m + 1];
    hide Edited, Got;
    if k == 0 {
      NoEditCounts(Edited(d, edits[0]), others, name);
    } else {
      LastEditCounts(Edited(d, edits[0]), others, name, k - 1);
    }
  }

  lemma {:induction false} NoEditCounts(d: Data, edits: seq<Edit>, name: string)
    requires NoneOf(edits, name)
    ensures Got(AllEdited(d, edits), name) == Got(d, name)
    decreases |edits|
  {
    if edits != [] {
      OneEditCounts(d, edits[0], name);
      hide Edited, Got;
      NoEditCounts(Edited(d, edits[0]), edits[1..], name);
    }
  }

  lemma OneEditCounts(d: Data, edit: Edit, name: string)
    ensures Got(Edited(d, edit), name) ==
            if !Concerns(edit, name) then Got(d, name) else if edit.Assign? then edit.value else ""
  {
  }

  class NameValueConfig {
    const parser: NameValueParser

    constructor ()
      ensures fresh(parser) && parser.Held() == NOTHING
    {
      parser := new NameValueParser();
    }

    method GetVariableValue(name: string) returns (value: string)
      ensures value == Got(parser.Held(), name)
    {
      value := "";
      if name in parser.nameValue {
        value := parser.nameValue[name];
      }
    }

    method SetVariableValue(name: string, value: string)
      modifies parser
      ensures parser.Held() == Edited(old(parser.Held()), Assign(name, value))
      ensures name in parser.nameValue && parser.nameValue[name] == value
      ensures SameBut(name, old(parser.nameValue), parser.nameValue)
      ensures parser.fullFileData ==
              if Mentioned(old(parser.fullFileData), name) then old(parser.fullFileData)
              else old(parser.fullFileData) + [Line(Variable, name)]
    {
      var found, i := false, 0;
      while i < |parser.fullFileData| && !found
        invariant 0 <= i <= |parser.fullFileData|
        invariant found <==> Mentioned(parser.fullFileData[..i], name)
      {
        found := parser.fullFileData[i].text == name;
        assert parser.fullFileData[..i + 1][i] == parser.fullFileData[i];
        i := i + 1;
      }
      assert Mentioned(parser.fullFileData, name) <==> found;
      if !found {
        parser.fullFileData := parser.fullFileData + [Line(Variable, name)];
      }
      parser.nameValue := parser.nameValue[name := value];
    }

    method RemoveVariable(name: string)
      modifies parser
      ensures parser.Held() == Edited(old(parser.Held()), Erase(name))
      ensures name !in parser.nameValue && SameBut(name, old(parser.nameValue), parser.nameValue)
      ensures exists ks :: TakenOut(old(parser.fullFileData), parser.fullFileData, Line(Variable, name), ks)
    {
      ghost var _ := WithoutMeaning(parser.fullFileData, Line(Variable, name));
      parser.fullFileData := Without(parser.fullFileData, Line(Variable, name));
      parser.nameValue := parser.nameValue - {name};
    }
  }

  // ---------- Names in the list and names with a value ----------

  /** Setting a variable keeps the list and the map together unless the name is new and the list
      already holds it as the text of some other kind of line; such a variable is never written. */
  lemma SetKeepsTogether(d: Data, name: string, value: string)
    requires Consistent(d)
    ensures Consistent(Edited(d, Assign(name, value))) <==> name in d.values || !Mentioned(d.lines, name)
  {
  }

  /** The variable a name such as an empty one loses: it reads back from memory but is not printed. */
  lemma LostVariable(d: Data, name: string, value: string, stamp: string)
    requires Consistent(d) && name !in d.values && Mentioned(d.lines, name)
    ensures var after := Edited(d, Assign(name, value));
            && after.values[name] == value
            && AllPrinted(after.lines, after.values, stamp) == AllPrinted(d.lines, d.values, stamp)
  {
    var after := Edited(d, Assign(name, value));
    SamePrint(d.lines, d.values, after.values, stamp);
  }

  /** The shortest case: in a file of one empty line a variable without a name is lost. */
  lemma NamelessLost(value: string, stamp: string)
    ensures var d := Data([Line(EmptyLine, "")], map[]);
            var after := Edited(d, Assign("", value));
            && Consistent(d) && !Consistent(after) && after.values[""] == value
            && AllPrinted(after.lines, after.values, stamp) == AllPrinted(d.lines, d.values, stamp)
  {
    var d := Data([Line(EmptyLine, "")], map[]);
    assert d.lines[0].text == "";
    SetKeepsTogether(d, "", value);
    LostVariable(d, "", value, stamp);
  }

  lemma {:induction false} SamePrint(lines: seq<Line>, a: map<string, string>, b: map<string, string>, stamp: string)
    requires forall line :: line in lines && line.kind == Variable ==>
               (line.text in a <==> line.text in b) && (line.text in a ==> a[line.text] == b[line.text])
    ensures AllPrinted(lines, a, stamp) == AllPrinted(lines, b, stamp)
  {
    if lines != [] {
      assert lines[0] in lines;
      SamePrint(lines[1..], a, b, stamp);
    }
  }

  lemma EraseKeepsTogether(d: Data, name: string)
    requires Consistent(d)
    ensures Consistent(Edited(d, Erase(name)))
  {
  }

  /** An edit a configuration file can hold. */
  predicate CleanEdit(edit: Edit) {
    edit.Assign? ==>
      CleanName(edit.name) && edit.name[0] != '#' && IsTrimmed(edit.value) && OneLine(edit.value)
  }

  lemma EditKeepsClean(d: Data, edit: Edit)
    requires Clean(d) && CleanEdit(edit)
    ensures Clean(Edited(d, edit))
  {
    hide IsTrimmed, OneLine;
    match edit {
      case Assign(name, value) =>
        if Mentioned(d.lines, name) {
          var i :| 0 <= i < |d.lines| && d.lines[i].text == name;
          assert CleanLine(d.lines[i]);
          assert d.lines[i] == Line(Variable, name);
        }
        SetKeepsTogether(d, name, value);
      case Erase(name) =>
        EraseKeepsTogether(d, name);
        var rest := Without(d.lines, Line(Variable, name));
        forall i | 0 <= i < |rest| ensures CleanLine(rest[i]) {
          assert rest[i] in d.lines;
        }
    }
  }

  // ---------- How a line is taken apart, and a file into lines ----------

  /** Behind k equals signs the name goes up to the next one or the end, and the value is what follows. */
  ghost predicate PairAt(text: string, k: nat, name: string, value: string) {
    && k + |name| <= |text| && OnlyEquals(text[..k])
    && name != "" && '=' !in name && text[k..k + |name|] == name
    && if k + |name| == |text| then value == "" else text[k + |name|] == '=' && value == text[k + |name| + 1..]
  }

  lemma {:induction false} SkippedEquals(s: string)
    ensures OnlyEquals(s[..|s| - |SkipEquals(s)|])
  {
    if s != "" && s[0] == '=' {
      SkippedEquals(s[1..]);
      var n := |s| - |SkipEquals(s)|;
      assert forall i :: 0 < i < n ==> s[..n][i] == s[1..][..n - 1][i - 1];
    }
  }

  /** What a line is, character by character. */
  lemma ClassifyMeaning(text: string)
    ensures Classify(text) == NoText <==> text == ""
    ensures Classify(text).Remark? <==> text != "" && text[0] == '#'
    ensures Classify(text).Remark? ==> Classify(text).text == text
    ensures Classify(text).Pair? ==> exists k :: PairAt(text, k, Classify(text).name, Classify(text).value)
  {
    if text != "" && text[0] != '#' && SkipEquals(text) != "" {
      PairIsAt(text);
      hide SkipEquals, IndexOf, PairAt;
    }
  }

  lemma PairIsAt(text: string)
    requires SkipEquals(text) != ""
    ensures var s := SkipEquals(text);
            var n := IndexOf(s, '=');
            PairAt(text, |text| - |s|, s[..n], if n < |s| then s[n + 1..] else "")
  {
    SkippedEquals(text);
    var s := SkipEquals(text);
    var k, n := |text| - |s|, IndexOf(s, '=');
    hide SkipEquals, IndexOf, OnlyEquals;
    assert text[k + n..] == s[n..] && text[k..k + n] == s[..n];
    if n < |s| {
      assert text[k + n] == s[n];
      assert text[k + n + 1..] == s[n + 1..];
    }
  }

  /** The lines, each with a newline behind it, are the file with one more newline. */
  lemma {:induction false} LinesMeaning(file: string)
    ensures Joined(Lines(file)) == file + "\n" && NoNewlines(Lines(file))
    decreases |file|
  {
    LinesHaveNoNewline(file);
    var n := IndexOf(file, '\n');
    if n < |file| {
      LinesMeaning(file[n + 1..]);
      hide IndexOf, Joined;
      JoinedCons(file[..n], Lines(file[n + 1..]));
      assert file == file[..n] + "\n" + file[n + 1..];
      Associates(file[..n] + "\n", file[n + 1..], "\n");
    } else {
      hide IndexOf, Lines;
      var none: seq<string> := [];
      assert [file] + none == [file];
      JoinedCons(file, none);
      assert Joined(none) == "";
    }
  }

  // ---------- Which files can be read ----------

  predicate OnlyEquals(s: string) {
    forall i :: 0 <= i < |s| ==> s[i] == '='
  }

  /** A line is refused only if it holds nothing but equals signs. */
  lemma RefusedExactly(text: string)
    ensures Classify(text).Malformed? <==> |text| > 0 && OnlyEquals(text)
  {
    EqualsSkipped(text);
    hide SkipEquals, IndexOf;
    if |text| > 0 && text[0] == '#' {
      assert !OnlyEquals(text);
    }
  }

  /** A line without any equals sign is a name without a value. */
  lemma NameAlone(text: string)
    requires |text| > 0 && text[0] != '#' && '=' !in text
    ensures Classify(text) == Pair(text, "")
  {
  }

  lemma {:induction false} EqualsSkipped(s: string)
    ensures |SkipEquals(s)| == 0 <==> OnlyEquals(s)
  {
    if |s| > 0 && s[0] == '=' {
      var rest := s[1..];
      assert SkipEquals(s) == SkipEquals(rest);
      hide SkipEquals;
      EqualsSkipped(rest);
      OnlyEqualsCons(s);
      hide OnlyEquals;
    }
  }

  lemma OnlyEqualsCons(s: string)
    requires |s| > 0 && s[0] == '='
    ensures OnlyEquals(s) <==> OnlyEquals(s[1..])
  {
  }

  /** Spaces skipped on all of the lines. */
  function Skipped(lines: seq<string>): nat {
    if lines == [] then 0 else Indent(CString(lines[0])) + Skipped(lines[1..])
  }

  /** Line k fits in what the lines before it left of the buffer, and is not refused. */
  predicate Readable(lines: seq<string>, offset: nat, k: nat)
    requires k < |lines|
  {
    && offset + Skipped(lines[..k]) + |lines[k]| < LINE_SIZE
    && !Refused(lines[k])
  }

  predicate Refused(line: string) {
    var text := CString(line);
    Classify(text[Indent(text)..]).Malformed?
  }

  predicate AllReadable(lines: seq<string>, offset: nat) {
    forall k :: 0 <= k < |lines| ==> Readable(lines, offset, k)
  }

  /** A file is read to its end exactly when every one of its lines fits after all the spaces skipped
      on earlier lines, and none of them is refused. */
  lemma {:induction false} ReadSucceeds(lines: seq<string>, offset: nat, d: Data)
    ensures ReadFrom(lines, offset, d).0 == Done <==> AllReadable(lines, offset)
    decreases |lines|
  {
    hide ReadFrom, Classify, Indent, CString, Skipped, Readable, Add, Refused;
    if |lines| == 0 {
      ReadNoMore(lines, offset, d);
    } else {
      var line := lines[0];
      hide AllReadable;
      ReadOrRefused(lines, offset, d);
      AllReadableCons(lines, offset);
      var text := CString(line);
      ReadSucceeds(lines[1..], offset + Indent(text), Add(d, Classify(text[Indent(text)..])));
    }
  }

  lemma ReadOrRefused(lines: seq<string>, offset: nat, d: Data)
    requires lines != []
    ensures var text := CString(lines[0]);
            if offset + |lines[0]| < LINE_SIZE && !Refused(lines[0])
            then ReadFrom(lines, offset, d) ==
                 ReadFrom(lines[1..], offset + Indent(text), Add(d, Classify(text[Indent(text)..])))
            else ReadFrom(lines, offset, d).0 != Done
  {
    hide ReadFrom, Classify, Indent, CString, Add;
    ReadOneMore(lines, offset, d);
    assert |lines[0]| < LINE_SIZE ==> Stored(lines[0]) == lines[0];
  }

  lemma AllReadableCons(lines: seq<string>, offset: nat)
    requires lines != []
    ensures AllReadable(lines, offset) <==>
            && offset + |lines[0]| < LINE_SIZE && !Refused(lines[0])
            && AllReadable(lines[1..], offset + Indent(CString(lines[0])))
  {
    var ahead, others := offset + Indent(CString(lines[0])), lines[1..];
    FirstReadable(lines, offset);
    forall k: nat | k < |others| ensures Readable(lines, offset, k + 1) <==> Readable(others, ahead, k) {
      LaterReadable(lines, offset, k);
    }
    hide Readable, Refused, Indent, CString, Skipped;
    if AllReadable(lines, offset) {
      assert Readable(lines, offset, 0);
      forall k | 0 <= k < |others| ensures Readable(others, ahead, k) {
        assert Readable(lines, offset, k + 1);
      }
    }
    if Readable(lines, offset, 0) && AllReadable(others, ahead) {
      forall k | 0 <= k < |lines| ensures Readable(lines, offset, k) {
        if k > 0 {
          assert Readable(others, ahead, k - 1);
          assert Readable(lines, offset, k - 1 + 1);
        }
      }
    }
  }

  lemma FirstReadable(lines: seq<string>, offset: nat)
    requires lines != []
    ensures Readable(lines, offset, 0) <==> offset + |lines[0]| < LINE_SIZE && !Refused(lines[0])
  {
  }

  lemma LaterReadable(lines: seq<string>, offset: nat, k: nat)
    requires k + 1 < |lines|
    ensures Readable(lines, offset, k + 1) <==> Readable(lines[1..], offset + Indent(CString(lines[0])), k)
  {
    hide Refused, Indent, CString;
    assert lines[..k + 1][1..] == lines[1..][..k];
  }

  // ---------- What reading a file comes to ----------

  /** What the reader makes of a line. */
  function EntryOf(line: string): Entry {
    var text := CString(Stored(line));
    Classify(text[Indent(text)..])
  }

  function AllAdded(d: Data, lines: seq<string>): Data
    decreases |lines|
  {
    if lines == [] then d else AllAdded(Add(d, EntryOf(lines[0])), lines[1..])
  }

  /** How much of the line buffer is gone before line k. */
  function Gone(lines: seq<string>, offset: nat, k: nat): nat
    requires k <= |lines|
  {
    offset + Skipped(lines[..k])
  }

  /** Why reading ends after n lines. */
  ghost predicate EndsAfter(lines: seq<string>, offset: nat, n: nat, outcome: Outcome) {
    match outcome
    case Done => n == |lines|
    case BadConfigFile =>
      n < |lines| && Gone(lines, offset, n) + |Stored(lines[n])| < LINE_SIZE && EntryOf(lines[n]).Malformed?
    case Overflow => n < |lines| && Gone(lines, offset, n) + |Stored(lines[n])| >= LINE_SIZE
    case Endless =>
      && 0 < n <= |lines| && |lines[n - 1]| >= LINE_SIZE
      && Gone(lines, offset, n - 1) == 0 && !EntryOf(lines[n - 1]).Malformed?
    case OpenFailed => false
  }

  /** Every line before the end is taken in: the entries of the first n lines, in their order. */
  ghost predicate ReadUpTo(lines: seq<string>, offset: nat, d: Data, r: (Outcome, Data), n: nat) {
    && n <= |lines| && EndsAfter(lines, offset, n, r.0) && r.1 == AllAdded(d, lines[..n])
    && forall k :: 0 <= k < (if r.0 == Endless then n - 1 else n) ==> Readable(lines, offset, k)
  }

  lemma {:induction false} ReadMeaning(lines: seq<string>, offset: nat, d: Data) returns (n: nat)
    ensures ReadUpTo(lines, offset, d, ReadFrom(lines, offset, d), n)
    decreases |lines|
  {
    hide ReadFrom, Classify, CString, Indent, Add, EndsAfter, ReadUpTo, Skipped, Refused;
    n := 0;
    if |lines| == 0 {
      ReadNothing(lines, offset, d);
    } else {
      FirstReadable(lines, offset);
      if Readable(lines, offset, 0) {
        ReadOrRefused(lines, offset, d);
        var line := lines[0];
        assert Stored(line) == line;
        var m := ReadMeaning(lines[1..], offset + Indent(CString(line)), Add(d, EntryOf(line)));
        n := m + 1;
        ReadLonger(lines, offset, d, ReadFrom(lines, offset, d), m);
      } else {
        n := ReadNoLonger(lines, offset, d);
      }
    }
  }

  lemma ReadNothing(lines: seq<string>, offset: nat, d: Data)
    requires |lines| == 0
    ensures ReadUpTo(lines, offset, d, ReadFrom(lines, offset, d), 0)
  {
    ReadNoMore(lines, offset, d);
  }

  lemma ReadNoLonger(lines: seq<string>, offset: nat, d: Data) returns (n: nat)
    requires lines != [] && !Readable(lines, offset, 0)
    ensures ReadUpTo(lines, offset, d, ReadFrom(lines, offset, d), n)
  {
    ReadOneMore(lines, offset, d);
    FirstReadable(lines, offset);
    assert lines[..0] == [] && |lines[..1]| == 1 && lines[..1][0] == lines[0] && lines[..1][1..] == [];
    OneAdded(lines, d);
    hide ReadFrom, Classify, CString, Indent, Add, AllAdded, Readable;
    var stored := Stored(lines[0]);
    assert |lines[0]| < LINE_SIZE ==> stored == lines[0];
    n := if offset + |stored| < LINE_SIZE && !EntryOf(lines[0]).Malformed? then 1 else 0;
  }

  lemma OneAdded(lines: seq<string>, d: Data)
    requires lines != []
    ensures AllAdded(d, lines[..0]) == d && AllAdded(d, lines[..1]) == Add(d, EntryOf(lines[0]))
  {
    hide EntryOf, Add;
    assert lines[..1][1..] == [];
  }

  lemma ReadLonger(lines: seq<string>, offset: nat, d: Data, r: (Outcome, Data), m: nat)
    requires lines != [] && Readable(lines, offset, 0)
    requires ReadUpTo(lines[1..], offset + Indent(CString(lines[0])), Add(d, EntryOf(lines[0])), r, m)
    ensures ReadUpTo(lines, offset, d, r, m + 1)
  {
    hide Classify, CString, Indent, Add;
    var others, ahead := lines[1..], offset + Indent(CString(lines[0]));
    assert lines[..m + 1][1..] == others[..m];
    GoneLater(lines, offset, m);
    if r.0 == Endless {
      GoneLater(lines, offset, m - 1);
    }
    forall k: nat | k < |others| ensures Readable(lines, offset, k + 1) <==> Readable(others, ahead, k) {
      LaterReadable(lines, offset, k);
    }
    hide Readable, EntryOf, Gone;
    forall k | 0 <= k < (if r.0 == Endless then m else m + 1)
      ensures Readable(lines, offset, k)
    {
      if k > 0 {
        assert Readable(others, ahead, k - 1);
        assert Readable(lines, offset, k - 1 + 1);
      }
    }
  }

  lemma GoneLater(lines: seq<string>, offset: nat, k: nat)
    requires k < |lines|
    ensures Gone(lines, offset, k + 1) == Gone(lines[1..], offset + Indent(CString(lines[0])), k)
  {
    hide CString, Indent;
    assert lines[..k + 1][1..] == lines[1..][..k];
  }

  /** The line sets the variable. */
  predicate Sets(line: string, name: string) {
    var entry := EntryOf(line);
    entry.Pair? && Trim(entry.name) == name && name != ""
  }

  ghost predicate LastToSet(lines: seq<string>, k: nat, name: string) {
    k < |lines| && Sets(lines[k], name) && forall m :: k < m < |lines| ==> !Sets(lines[m], name)
  }

  /** A variable has the value of the last line that sets it. */
  lemma {:induction false} LastLineCounts(d: Data, lines: seq<string>, name: string, k: nat)
    requires LastToSet(lines, k, name)
    ensures name in AllAdded(d, lines).values && AllAdded(d, lines).values[name] == Trim(EntryOf(lines[k]).value)
    decreases |lines|
  {
    hide EntryOf, Trim;
    var others := lines[1..];
    assert forall m :: 0 <= m < |others| ==> others[m] == lines[m + 1];
    var after := Add(d, EntryOf(lines[0]));
    if k == 0 {
      NoLineCounts(after, others, name);
    } else {
      LastLineCounts(after, others, name, k - 1);
    }
  }

  lemma {:induction false} NoLineCounts(d: Data, lines: seq<string>, name: string)
    requires forall k :: 0 <= k < |lines| ==> !Sets(lines[k], name)
    ensures name in AllAdded(d, lines).values <==> name in d.values
    ensures name in d.values ==> AllAdded(d, lines).values[name] == d.values[name]
    decreases |lines|
  {
    hide EntryOf, Trim;
    if lines != [] {
      assert !Sets(lines[0], name);
      NoLineCounts(Add(d, EntryOf(lines[0])), lines[1..], name);
    }
  }

  /** Reading leaves the data clean, whatever the file. */
  lemma {:induction false} ReadIsClean(lines: seq<string>, offset: nat, d: Data)
    requires Clean(d) && NoNewlines(lines)
    ensures Clean(ReadFrom(lines, offset, d).1)
    decreases |lines|
  {
    hide Clean, Classify, Add, CString, Indent;
    if lines == [] {
      ReadNoMore(lines, offset, d);
    } else {
      ReadOneMore(lines, offset, d);
      hide ReadFrom;
      var stored := Stored(lines[0]);
      var text := CString(stored);
      assert '\n' !in stored;
      AddKeepsClean(d, stored);
      var after := Add(d, Classify(text[Indent(text)..]));
      ReadIsClean(lines[1..], offset + Indent(text), after);
    }
  }

  lemma AddKeepsClean(d: Data, stored: string)
    requires Clean(d) && '\n' !in stored
    ensures var text := CString(stored); Clean(Add(d, Classify(text[Indent(text)..])))
  {
    var text := CString(stored);
    var buffer := text[Indent(text)..];
    assert OneLine(text) by {
      assert forall c :: c in text ==> c in stored;
    }
    PartOf(text, Indent(text), |text|);
    EntryIsClean(buffer);
    var entry := Classify(buffer);
    hide CString, Classify, OneLine, Clean, Add;
    if entry.Pair? {
      PairKeepsClean(d, entry.name, entry.value);
    } else {
      OtherKeepsClean(d, entry);
    }
  }

  lemma EntryIsClean(buffer: string)
    requires OneLine(buffer)
    ensures match Classify(buffer)
            case Remark(text) => text != "" && text[0] == '#' && OneLine(text)
            case Pair(name, value) => OneLine(name) && OneLine(value) && '=' !in name
            case _ => true
  {
  }

  lemma OtherKeepsClean(d: Data, entry: Entry)
    requires Clean(d) && !entry.Pair?
    requires entry.Remark? ==> entry.text != "" && entry.text[0] == '#' && OneLine(entry.text)
    ensures Clean(Add(d, entry))
  {
  }

  lemma PairKeepsClean(d: Data, name: string, value: string)
    requires Clean(d) && OneLine(name) && OneLine(value) && '=' !in name
    ensures Clean(Add(d, Pair(name, value)))
  {
    TrimmedPart(name);
    TrimmedPart(value);
    hide Trim, OneLine, IsTrimmed;
    var after := Add(d, Pair(name, value));
    if Trim(name) != "" {
      var line := Line(Variable, Trim(name));
      assert after.lines == d.lines + [line];
      assert forall other :: other in after.lines <==> other in d.lines || other == line;
    }
  }

  lemma PartOf(s: string, a: nat, b: nat)
    requires a <= b <= |s|
    ensures (OneLine(s) ==> OneLine(s[a..b])) && ('=' !in s ==> '=' !in s[a..b])
    ensures OneLine("")
  {
  }

  lemma TrimmedPart(s: string)
    ensures IsTrimmed(Trim(s)) && (OneLine(s) ==> OneLine(Trim(s))) && ('=' !in s ==> '=' !in Trim(s))
  {
  }

  lemma {:induction false} LinesHaveNoNewline(file: string)
    ensures NoNewlines(Lines(file))
    decreases |file|
  {
    var n := IndexOf(file, '\n');
    if n < |file| {
      LinesHaveNoNewline(file[n + 1..]);
      var rest := Lines(file[n + 1..]);
      assert forall i :: 0 < i < |Lines(file)| ==> Lines(file)[i] == rest[i - 1];
    }
  }

  /** In the data of any file that was read, the variables in the list are those with a value, and
      names, values and comments have the form the file format allows them. */
  lemma FileIsClean(file: string)
    ensures Clean(ReadFrom(Lines(file), 0, NOTHING).1)
  {
    LinesHaveNoNewline(file);
    ReadIsClean(Lines(file), 0, NOTHING);
  }

  // ---------- Write, then read ----------

  lemma {:induction false} LinesOfJoined(texts: seq<string>)
    requires NoNewlines(texts)
    ensures Lines(Joined(texts)) == texts + [""]
  {
    if |texts| == 0 {
      NothingJoined(texts);
    } else {
      var first, others := texts[0], texts[1..];
      assert '\n' !in first && NoNewlines(others);
      hide Lines, Joined, NoNewlines;
      LinesOfJoined(others);
      LinesCons(first, Joined(others));
      JoinedCons(first, others);
      assert [first] + others == texts;
      Associates([first], others, [""]);
    }
  }

  predicate NoNewlines(texts: seq<string>) {
    forall i :: 0 <= i < |texts| ==> '\n' !in texts[i]
  }

  lemma NothingJoined(texts: seq<string>)
    requires |texts| == 0
    ensures Lines(Joined(texts)) == texts + [""]
  {
  }

  lemma LinesCons(first: string, rest: string)
    requires '\n' !in first
    ensures Lines(first + "\n" + rest) == [first] + Lines(rest)
  {
    var file := first + "\n" + rest;
    assert file[..|first|] == first && file[|first| + 1..] == rest;
    IndexOfIs(file, '\n', |first|);
    hide IndexOf;
  }

  /** What a printed line reads back as: a variable whose name starts with # becomes a comment. */
  function ReadBack(line: Line, values: map<string, string>, stamp: string): Line {
    match line.kind
    case Variable =>
      if line.text in values && line.text != "" && line.text[0] == '#'
      then Line(Comment, line.text + "=" + values[line.text]) else line
    case Comment => Line(Comment, WithStamp(line.text, stamp))
    case EmptyLine => line
  }

  function AllReadBack(lines: seq<Line>, values: map<string, string>, stamp: string): (back: seq<Line>)
    ensures |back| == |lines|
    ensures forall i :: 0 <= i < |lines| ==> back[i] == ReadBack(lines[i], values, stamp)
  {
    if lines == [] then [] else [ReadBack(lines[0], values, stamp)] + AllReadBack(lines[1..], values, stamp)
  }

  /** The value a printed line reads back, as a map. */
  function ValueBack(line: Line, values: map<string, string>): map<string, string> {
    if line.kind == Variable && line.text in values && !(line.text != "" && line.text[0] == '#')
    then map[line.text := values[line.text]] else map[]
  }

  function ValuesBack(lines: seq<Line>, values: map<string, string>): map<string, string> {
    if lines == [] then map[] else ValueBack(lines[0], values) + ValuesBack(lines[1..], values)
  }

  predicate Short(line: Line, values: map<string, string>, stamp: string) {
    match line.kind
    case Variable => line.text in values ==> |line.text| + 1 + |values[line.text]| < LINE_SIZE
    case Comment => |WithStamp(line.text, stamp)| < LINE_SIZE
    case EmptyLine => true
  }

  predicate AllShort(lines: seq<Line>, values: map<string, string>, stamp: string) {
    forall i :: 0 <= i < |lines| ==> Short(lines[i], values, stamp)
  }

  /** How a line is taken in that starts with neither a space nor an equals sign. */
  lemma TakenIn(s: string)
    requires OneLine(s) && (s == "" || (s[0] != ' ' && s[0] != '='))
    ensures CString(s) == s && Indent(s) == 0 && s[Indent(s)..] == s && !Classify(s).Malformed?
  {
  }

  /** The line is printed as one line, which is taken in as the line and value it reads back as. */
  ghost predicate ReadsBack(line: Line, values: map<string, string>, stamp: string, d: Data) {
    var p := Printed(line, values, stamp);
    && |p| == 1 && OneLine(p[0]) && (p[0] != "" ==> p[0][0] != ' ' && p[0][0] != '=')
    && (Short(line, values, stamp) <==> |p[0]| < LINE_SIZE)
    && Add(d, Classify(p[0])) == Data(d.lines + [ReadBack(line, values, stamp)], d.values + ValueBack(line, values))
  }

  lemma PrintedReadsBack(line: Line, values: map<string, string>, stamp: string, d: Data)
    requires CleanLine(line) && OneLine(stamp)
    requires line.kind == Variable ==> line.text in values && IsTrimmed(values[line.text]) && OneLine(values[line.text])
    ensures ReadsBack(line, values, stamp, d)
  {
    match line.kind
    case Variable => VariableReadsBack(line, values, stamp, d);
    case Comment => CommentReadsBack(line, values, stamp, d);
    case EmptyLine => assert d.values + ValueBack(line, values) == d.values;
  }

  lemma VariableReadsBack(line: Line, values: map<string, string>, stamp: string, d: Data)
    requires line.kind == Variable && CleanName(line.text)
    requires line.text in values && IsTrimmed(values[line.text]) && OneLine(values[line.text])
    ensures ReadsBack(line, values, stamp, d)
  {
    hide Trim, IsTrimmed, Classify, OneLine, Add;
    var name, value := line.text, values[line.text];
    PrintedVariable(name, value);
    if name[0] == '#' {
      AddRemark(d, name + "=" + value);
    } else {
      AddPair(d, name, value);
    }
  }

  lemma AddPair(d: Data, name: string, value: string)
    requires name != "" && Trim(name) == name && Trim(value) == value
    ensures Add(d, Pair(name, value)) == Data(d.lines + [Line(Variable, name)], d.values + map[name := value])
  {
    hide Trim;
    assert d.values[name := value] == d.values + map[name := value];
  }

  lemma AddRemark(d: Data, text: string)
    ensures Add(d, Remark(text)) == Data(d.lines + [Line(Comment, text)], d.values + map[])
  {
  }

  lemma CommentReadsBack(line: Line, values: map<string, string>, stamp: string, d: Data)
    requires line.kind == Comment && CleanLine(line) && OneLine(stamp)
    ensures ReadsBack(line, values, stamp, d)
  {
    PrintedComment(line.text, stamp);
    AddRemark(d, WithStamp(line.text, stamp));
    hide Classify, WithStamp, OneLine, Add;
  }

  lemma PrintedComment(text: string, stamp: string)
    requires text != "" && text[0] == '#' && OneLine(text) && OneLine(stamp)
    ensures var p := WithStamp(text, stamp);
            && p != "" && p[0] == '#' && OneLine(p) && Classify(p) == Remark(p)
  {
  }

  lemma PrintedVariable(name: string, value: string)
    requires CleanName(name) && IsTrimmed(value) && OneLine(value)
    ensures var p := name + "=" + value;
            && OneLine(p) && p[0] != ' ' && p[0] != '='
            && Trim(name) == name && Trim(value) == value
            && Classify(p) == if name[0] == '#' then Remark(p) else Pair(name, value)
  {
    hide Trim, Classify;
    TrimMeaning(name);
    TrimMeaning(value);
    PairClassified(name, value);
    var p := name + "=" + value;
    assert p[0] == name[0] && !Blank(name[0]) && name[0] in name;
  }

  lemma PairClassified(name: string, value: string)
    requires name != "" && '=' !in name
    ensures var p := name + "=" + value; Classify(p) == if name[0] == '#' then Remark(p) else Pair(name, value)
  {
    var p := name + "=" + value;
    assert p[0] == name[0] && name[0] in name;
    assert SkipEquals(p) == p;
    hide SkipEquals;
    assert p[..|name|] == name && p[|name| + 1..] == value;
    IndexOfIs(p, '=', |name|);
    hide IndexOf;
  }

  lemma StepOver(p: string, rest: seq<string>, d: Data)
    requires OneLine(p) && (p != "" ==> p[0] != ' ' && p[0] != '=')
    ensures |p| < LINE_SIZE ==> ReadFrom([p] + rest, 0, d) == ReadFrom(rest, 0, Add(d, Classify(p)))
    ensures |p| >= LINE_SIZE ==> ReadFrom([p] + rest, 0, d).0 == Endless
  {
    ReadOneMore([p] + rest, 0, d);
    assert ([p] + rest)[1..] == rest;
    assert forall c :: c in Stored(p) ==> c in p;
    TakenIn(Stored(p));
    hide ReadFrom, CString, Indent, Classify, Add;
  }

  ghost predicate Printable(lines: seq<Line>, values: map<string, string>) {
    forall i :: 0 <= i < |lines| ==>
      CleanLine(lines[i])
      && (lines[i].kind == Variable ==>
            lines[i].text in values && IsTrimmed(values[lines[i].text]) && OneLine(values[lines[i].text]))
  }

  lemma {:induction false} ReadPrinted(lines: seq<Line>, values: map<string, string>, stamp: string, d: Data)
    requires Printable(lines, values) && OneLine(stamp)
    ensures var r := ReadFrom(AllPrinted(lines, values, stamp) + [""], 0, d);
            if AllShort(lines, values, stamp)
            then r == (Done, Data(d.lines + AllReadBack(lines, values, stamp) + [Line(EmptyLine, "")],
                                  d.values + ValuesBack(lines, values)))
            else r.0 == Endless
    decreases |lines|
  {
    if lines == [] {
      ReadEnd(lines, values, stamp, d);
    } else {
      var line, others := lines[0], lines[1..];
      assert Printable(others, values);
      PrintedReadsBack(line, values, stamp, d);
      assert AllShort(lines, values, stamp) <==> Short(line, values, stamp) && AllShort(others, values, stamp) by {
        assert forall i :: 0 < i < |lines| ==> lines[i] == others[i - 1];
      }
      hide Printable, CleanLine, IsTrimmed, OneLine, AllShort;
      var p := Printed(line, values, stamp)[0];
      var next := Add(d, Classify(p));
      StepOver(p, AllPrinted(others, values, stamp) + [""], d);
      ReadPrinted(others, values, stamp, next);
      hide ReadFrom, Classify, Add, Printed, ReadBack, ValueBack, Short;
      assert Printed(line, values, stamp) == [p];
      assert AllPrinted(lines, values, stamp) == [p] + AllPrinted(others, values, stamp);
      Associates([p], AllPrinted(others, values, stamp), [""]);
      BackCons(line, others, lines, values, stamp, d);
    }
  }

  lemma ReadEnd(lines: seq<Line>, values: map<string, string>, stamp: string, d: Data)
    requires |lines| == 0
    ensures ReadFrom(AllPrinted(lines, values, stamp) + [""], 0, d) ==
            (Done, Data(d.lines + AllReadBack(lines, values, stamp) + [Line(EmptyLine, "")],
                        d.values + ValuesBack(lines, values)))
  {
    var none := AllPrinted(lines, values, stamp);
    assert none + [""] == [""] + none;
    StepOver("", none, d);
    ReadNoMore(none, 0, Add(d, NoText));
    assert d.values + map[] == d.values;
    assert d.lines + AllReadBack(lines, values, stamp) == d.lines;
  }

  lemma BackCons(line: Line, others: seq<Line>, lines: seq<Line>, values: map<string, string>, stamp: string, d: Data)
    requires lines != [] && line == lines[0] && others == lines[1..]
    ensures d.lines + [ReadBack(line, values, stamp)] + AllReadBack(others, values, stamp)
         == d.lines + AllReadBack(lines, values, stamp)
    ensures d.values + ValueBack(line, values) + ValuesBack(others, values) == d.values + ValuesBack(lines, values)
  {
    hide ReadBack, ValueBack;
  }

  lemma {:induction false} ValuesBackAre(lines: seq<Line>, values: map<string, string>)
    ensures forall name :: name in ValuesBack(lines, values) <==>
              name in values && Line(Variable, name) in lines && !(name != "" && name[0] == '#')
    ensures forall name :: name in ValuesBack(lines, values) ==> ValuesBack(lines, values)[name] == values[name]
  {
    if lines != [] {
      ValuesBackAre(lines[1..], values);
      assert forall line :: line in lines <==> line == lines[0] || line in lines[1..];
    }
  }

  /** The list after a write: the generation marks carry the new stamp. */
  function Stamped(lines: seq<Line>, stamp: string): (stamped: seq<Line>)
    ensures |stamped| == |lines|
    ensures forall i :: 0 <= i < |lines| ==> stamped[i] == StampedLine(lines[i], stamp)
  {
    if lines == [] then [] else [StampedLine(lines[0], stamp)] + Stamped(lines[1..], stamp)
  }

  function StampedLine(line: Line, stamp: string): Line {
    if line.kind == Comment && |line.text| >= 16 && line.text[..16] == "# Generated on: "
    then Line(Comment, "# Generated on: " + stamp) else line
  }

  lemma StampedAs(line: Line, stamp: string)
    ensures StampedLine(line, stamp) ==
            if line.kind == Comment then Line(Comment, WithStamp(line.text, stamp)) else line
  {
  }

  ghost predicate NoHashNames(values: map<string, string>) {
    forall name :: name in values && name != "" ==> name[0] != '#'
  }

  function FileOf(d: Data, stamp: string): string {
    Joined(AllPrinted(d.lines, d.values, stamp))
  }

  /** Written data can be read exactly when every line is short enough; and it comes back as it was,
      with one more empty line, exactly when no name starts with #. */
  lemma WriteThenRead(d: Data, stamp: string)
    requires Clean(d) && OneLine(stamp)
    ensures var r := ReadFrom(Lines(FileOf(d, stamp)), 0, NOTHING);
            && (r.0 == Done <==> AllShort(d.lines, d.values, stamp))
            && (r == (Done, Data(Stamped(d.lines, stamp) + [Line(EmptyLine, "")], d.values))
                <==> AllShort(d.lines, d.values, stamp) && NoHashNames(d.values))
  {
    WrittenReadsBack(d, stamp);
    BackIsStamped(d, stamp);
    hide ReadFrom, AllPrinted, Joined, Lines, AllShort, NoHashNames, ValuesBack, Clean, AllReadBack, Stamped;
    SameData(AllReadBack(d.lines, d.values, stamp), Stamped(d.lines, stamp), Line(EmptyLine, ""));
  }

  lemma SameData(a: seq<Line>, b: seq<Line>, line: Line)
    ensures a + [line] == b + [line] <==> a == b
  {
    assert a == (a + [line])[..|a|] && b == (b + [line])[..|b|];
    assert |a + [line]| == |a| + 1 && |b + [line]| == |b| + 1;
  }

  lemma WrittenReadsBack(d: Data, stamp: string)
    requires Clean(d) && OneLine(stamp)
    ensures var r := ReadFrom(Lines(FileOf(d, stamp)), 0, NOTHING);
            if AllShort(d.lines, d.values, stamp)
            then r == (Done, Data(AllReadBack(d.lines, d.values, stamp) + [Line(EmptyLine, "")],
                                  ValuesBack(d.lines, d.values)))
            else r.0 == Endless
  {
    assert Printable(d.lines, d.values);
    hide ReadFrom, AllPrinted, Joined, Lines, Printable, AllShort, ValuesBack, Clean, AllReadBack, NoNewlines;
    PrintedNoNewlines(d.lines, d.values, stamp);
    LinesOfJoined(AllPrinted(d.lines, d.values, stamp));
    ReadPrinted(d.lines, d.values, stamp, NOTHING);
    NothingFirst(AllReadBack(d.lines, d.values, stamp), ValuesBack(d.lines, d.values));
  }

  lemma NothingFirst(lines: seq<Line>, values: map<string, string>)
    ensures NOTHING.lines + lines == lines && NOTHING.values + values == values
  {
  }

  lemma BackIsStamped(d: Data, stamp: string)
    requires Clean(d)
    ensures AllReadBack(d.lines, d.values, stamp) == Stamped(d.lines, stamp) <==> NoHashNames(d.values)
    ensures NoHashNames(d.values) ==> ValuesBack(d.lines, d.values) == d.values
  {
    ValuesBackAre(d.lines, d.values);
    var back, stamped := AllReadBack(d.lines, d.values, stamp), Stamped(d.lines, stamp);
    hide WithStamp, OneLine, IsTrimmed, AllReadBack, Stamped, ValuesBack, StampedLine;
    forall i | 0 <= i < |d.lines|
      ensures stamped[i] == if d.lines[i].kind == Comment then Line(Comment, WithStamp(d.lines[i].text, stamp))
                            else d.lines[i]
    {
      StampedAs(d.lines[i], stamp);
    }
    if NoHashNames(d.values) {
      forall i | 0 <= i < |back| ensures back[i] == stamped[i] {
      }
    } else {
      var name :| name in d.values && name != "" && name[0] == '#';
      var i :| 0 <= i < |d.lines| && d.lines[i] == Line(Variable, name);
      assert back[i].kind == Comment && stamped[i].kind == Variable;
    }
  }

  lemma {:induction false} PrintedNoNewlines(lines: seq<Line>, values: map<string, string>, stamp: string)
    requires Printable(lines, values) && OneLine(stamp)
    ensures NoNewlines(AllPrinted(lines, values, stamp))
  {
    if lines != [] {
      PrintedReadsBack(lines[0], values, stamp, NOTHING);
      assert Printable(lines[1..], values);
      PrintedNoNewlines(lines[1..], values, stamp);
      hide Printable, Printed, ReadBack, ValueBack, Short, Add, Classify;
    }
  }

  function AllEdited(d: Data, edits: seq<Edit>): Data
    decreases |edits|
  {
    if edits == [] then d else AllEdited(Edited(d, edits[0]), edits[1..])
  }

  lemma {:induction false} EditsKeepClean(d: Data, edits: seq<Edit>)
    requires Clean(d) && forall i :: 0 <= i < |edits| ==> CleanEdit(edits[i])
    ensures Clean(AllEdited(d, edits))
    decreases |edits|
  {
    if edits != [] {
      EditKeepsClean(d, edits[0]);
      hide Clean, CleanEdit, Edited;
      EditsKeepClean(Edited(d, edits[0]), edits[1..]);
    }
  }

  /** Any file, read, edited at will and written, reads back as the same variables and lines. */
  lemma EditedFileReadsBack(file: string, edits: seq<Edit>, stamp: string)
    requires forall i :: 0 <= i < |edits| ==> CleanEdit(edits[i])
    requires OneLine(stamp)
    ensures var d := AllEdited(ReadFrom(Lines(file), 0, NOTHING).1, edits);
            && Consistent(d)
            && (AllShort(d.lines, d.values, stamp) && NoHashNames(d.values)
                <==> ReadFrom(Lines(FileOf(d, stamp)), 0, NOTHING)
                     == (Done, Data(Stamped(d.lines, stamp) + [Line(EmptyLine, "")], d.values)))
  {
    FileIsClean(file);
    var read := ReadFrom(Lines(file), 0, NOTHING).1;
    EditsKeepClean(read, edits);
    WriteThenRead(AllEdited(read, edits), stamp);
  }

  /** What was last set is what a caller gets after the file has been written and read again. */
  lemma SetSurvivesFile(file: string, edits: seq<Edit>, stamp: string, name: string, k: nat)
    requires OneLine(stamp) && LastOf(edits, k, name)
    requires forall i :: 0 <= i < |edits| ==> CleanEdit(edits[i])
    requires var d := AllEdited(ReadFrom(Lines(file), 0, NOTHING).1, edits);
             AllShort(d.lines, d.values, stamp) && NoHashNames(d.values)
    ensures var d := AllEdited(ReadFrom(Lines(file), 0, NOTHING).1, edits);
            Got(ReadFrom(Lines(FileOf(d, stamp)), 0, NOTHING).1, name) ==
            if edits[k].Assign? then edits[k].value else ""
  {
    hide ReadFrom, Lines, AllPrinted, Joined, AllShort, NoHashNames, CleanEdit, Stamped;
    EditedFileReadsBack(file, edits, stamp);
    LastEditCounts(ReadFrom(Lines(file), 0, NOTHING).1, edits, name, k);
    hide LastOf, AllEdited, Consistent;
  }
}
