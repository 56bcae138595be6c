/** The text of the global configuration file: how a line is read and how an entry is written
    (src/scim_global_config.cpp:67-126, 426-430). */
module ConfigText {
  import opened Common

  const BUFFER_SIZE: nat := 10000

  // ----- reading one line -----

  predicate IsBlank(c: char) {
    c == ' ' || c == '\t' || c == '\n' || c as int == 11
  }

  function TrimLeft(s: string): (t: string)
    ensures t == [] || !IsBlank(t[0])
  {
    if s != [] && IsBlank(s[0]) then TrimLeft(s[1..]) else s
  }

  function TrimRight(s: string): (t: string)
    ensures t <= s
    ensures t == [] || !IsBlank(t[|t| - 1])
  {
    if s != [] && IsBlank(s[|s| - 1]) then TrimRight(s[..|s| - 1]) else s
  }

  /** `__trim_blank` */
  function TrimBlank(s: string): string {
    TrimRight(TrimLeft(s))
  }

  /** The characters of a C string: those before the first NUL. */
  function CString(s: string): (t: string)
    ensures '\0' !in t
    ensures '\0' !in s ==> t == s
  {
    if s == [] || s[0] == '\0' then [] else [s[0]] + CString(s[1..])
  }

  /** Index of the first '=', or the length. */
  function FindEquals(s: string): (n: nat)
    ensures n <= |s| && (n < |s| ==> s[n] == '=')
    ensures '=' !in s[..n]
  {
    if s == [] || s[0] == '=' then 0 else 1 + FindEquals(s[1..])
  }

  /** Index of the first blank or '=', or the length. */
  function FindKeyEnd(s: string): (n: nat)
    ensures n <= |s|
    ensures forall i :: 0 <= i < n ==> !IsBlank(s[i]) && s[i] != '='
    ensures n < |s| ==> IsBlank(s[n]) || s[n] == '='
  {
    if s == [] || IsBlank(s[0]) || s[0] == '=' then 0 else 1 + FindKeyEnd(s[1..])
  }

  /** `String::erase (pos, n)` */
  function Erase(s: string, pos: nat, n: nat): string
    requires pos <= |s|
  {
    s[..pos] + s[if pos + n < |s| then pos + n else |s|..]
  }

  /** `__get_param_portion`: cuts `length - 1` characters behind the key, which is all of them
      because the key is not empty. */
  function ParamPortion(s: string): string
    requires s != []
  {
    Erase(s, FindKeyEnd(s), |s| - 1)
  }

  /** `__get_value_portion` */
  function ValuePortion(s: string): string
    requires FindEquals(s) < |s|
  {
    TrimRight(TrimLeft(s[FindEquals(s) + 1..]))
  }

  /** What one line of the file contributes. */
  function ParseLine(line: string): Option<(string, string)> {
    var s := TrimBlank(CString(line));
    if s == [] || s[0] == '#' || FindEquals(s) == |s| || s[0] == '=' then None
    else Some((ParamPortion(s), ValuePortion(s)))
  }

  /** What `flush` writes for one entry, without the newline. */
  function PrintLine(key: string, value: string): string {
    key + " = " + value
  }

  // ----- one line is read back exactly when the entry is storable -----

  ghost predicate StorableKey(key: string) {
    && key != [] && key[0] != '#'
    && forall c :: c in key ==> !IsBlank(c) && c != '=' && c != '\0'
  }

  ghost predicate StorableValue(value: string) {
    && '\n' !in value && '\0' !in value
    && (value != [] ==> !IsBlank(value[0]) && !IsBlank(value[|value| - 1]))
  }

  /** A value that stays on its line; blanks around it are lost. */
  ghost predicate WritableValue(value: string) {
    '\n' !in value && '\0' !in value
  }

  lemma FindEqualsAt(s: string, n: nat)
    requires n < |s| && s[n] == '=' && forall i :: 0 <= i < n ==> s[i] != '='
    ensures FindEquals(s) == n
  {
  }

  lemma FindKeyEndAt(s: string, n: nat)
    requires n < |s| && (IsBlank(s[n]) || s[n] == '=')
    requires forall i :: 0 <= i < n ==> !IsBlank(s[i]) && s[i] != '='
    ensures FindKeyEnd(s) == n
  {
  }

  /** The line of an entry as the reader sees it: an empty value leaves no blank behind the '='. */
  function Trimmed(key: string, value: string): string {
    if value == [] then key + " =" else PrintLine(key, value)
  }

  lemma {:induction false} TrimRightAppend(a: string, b: string)
    ensures TrimRight(a + b) == if TrimRight(b) == [] then TrimRight(a) else a + TrimRight(b)
  {
    if b == [] {
      assert a + b == a;
    } else {
      var front, last := b[..|b| - 1], b[|b| - 1];
      assert (a + b)[..|a + b| - 1] == a + front;
      if IsBlank(last) {
        TrimRightAppend(a, front);
      }
    }
  }

  /** It does not matter which end is trimmed first. */
  lemma {:induction false} TrimsCommute(s: string)
    ensures TrimLeft(TrimRight(s)) == TrimRight(TrimLeft(s))
  {
    if s == [] {
    } else {
      var rest := s[1..];
      assert s == [s[0]] + rest;
      TrimRightAppend([s[0]], rest);
      if IsBlank(s[0]) {
        TrimsCommute(rest);
      }
    }
  }

  lemma {:induction false} TrimTwice(s: string)
    ensures TrimBlank(TrimRight(s)) == TrimBlank(s)
    ensures TrimRight(s) == [] ==> TrimBlank(s) == []
  {
    TrimsCommute(s);
  }

  lemma {:induction false} TrimPrinted(key: string, value: string)
    requires StorableKey(key) && '\0' !in value
    ensures TrimBlank(CString(PrintLine(key, value))) == Trimmed(key, TrimRight(value))
  {
    hide CString;
    var line := PrintLine(key, value);
    assert '\0' !in line;
    assert line[0] == key[0] && key[0] in key;
    assert TrimLeft(line) == line;
    TrimRightAppend(key + " = ", value);
    assert line == key + " = " + value;
    TrimRightAppend(key, " = ");
    assert TrimRight(" = ") == " =" by {
      TrimEquals();
    }
  }

  lemma TrimEquals()
    ensures TrimRight(" = ") == " ="
  {
    assert " = "[..2] == " =";
  }

  lemma KeyOfTrimmed(key: string, value: string)
    requires StorableKey(key)
    ensures var s := Trimmed(key, value);
            && FindEquals(s) == |key| + 1 && s[0] == key[0]
            && ParamPortion(s) == key
  {
    var s := Trimmed(key, value);
    forall i | 0 <= i < |key| ensures !IsBlank(s[i]) && s[i] != '=' {
      assert s[i] == key[i] && key[i] in key;
    }
    FindKeyEndAt(s, |key|);
    FindEqualsAt(s, |key| + 1);
    assert s[..|key|] == key;
  }

  lemma ValueOfTrimmed(key: string, value: string)
    ensures TrimRight(TrimLeft(Trimmed(key, value)[|key| + 2..])) == TrimBlank(value)
  {
    if value != [] {
      assert Trimmed(key, value)[|key| + 2..] == " " + value;
      assert (" " + value)[1..] == value;
    }
  }

  /** A written line is read as its key and its value without the blanks around it. */
  lemma {:induction false} WrittenLine(key: string, value: string)
    requires StorableKey(key) && '\0' !in value
    ensures ParseLine(PrintLine(key, value)) == Some((key, TrimBlank(value)))
  {
    hide CString, TrimBlank, FindEquals, ParamPortion, TrimRight, TrimLeft;
    var trimmed := TrimRight(value);
    TrimPrinted(key, value);
    KeyOfTrimmed(key, trimmed);
    ValueOfTrimmed(key, trimmed);
    TrimTwice(value);
    assert key[0] in key;
  }

  lemma StorableTrimmed(value: string)
    requires StorableValue(value)
    ensures TrimBlank(value) == value
  {
  }

  lemma {:induction false} TrimmedIsStorable(value: string)
    requires WritableValue(value)
    ensures StorableValue(TrimBlank(value)) && |TrimBlank(value)| <= |value|
  {
    TrimmedChars(value);
    TrimmedChars(TrimLeft(value));
    TrimLeftIsSuffix(value);
  }

  lemma {:induction false} StorableLine(key: string, value: string)
    requires StorableKey(key) && StorableValue(value)
    ensures ParseLine(PrintLine(key, value)) == Some((key, value))
  {
    WrittenLine(key, value);
    StorableTrimmed(value);
  }

  lemma TrimTight(key: string, value: string)
    requires StorableKey(key) && StorableValue(value)
    ensures TrimBlank(CString(key + "=" + value)) == key + "=" + value
  {
    var line := key + "=" + value;
    assert '\0' !in line;
    assert line[0] == key[0] && key[0] in key;
    assert line[|line| - 1] == if value == [] then '=' else value[|value| - 1];
    assert TrimLeft(line) == line;
  }

  lemma KeyOfTight(key: string, value: string)
    requires StorableKey(key)
    ensures var s := key + "=" + value;
            && FindEquals(s) == |key| && s[0] == key[0]
            && ParamPortion(s) == key && s[|key| + 1..] == value
  {
    var s := key + "=" + value;
    forall i | 0 <= i < |key| ensures !IsBlank(s[i]) && s[i] != '=' {
      assert s[i] == key[i] && key[i] in key;
    }
    FindKeyEndAt(s, |key|);
    FindEqualsAt(s, |key|);
    assert s[..|key|] == key;
  }

  /** A line without blanks around its "=", as a user may have written it, is read the same way. */
  lemma {:induction false} TightLine(key: string, value: string)
    requires StorableKey(key) && StorableValue(value)
    ensures ParseLine(key + "=" + value) == Some((key, value))
  {
    hide CString, FindEquals, ParamPortion, TrimRight, TrimLeft;
    TrimTight(key, value);
    KeyOfTight(key, value);
    StorableTrimmed(value);
    assert key[0] in key;
  }

  lemma {:induction false} TrimLeftIsSuffix(s: string)
    ensures exists k :: 0 <= k <= |s| && TrimLeft(s) == s[k..]
  {
    if s != [] && IsBlank(s[0]) {
      TrimLeftIsSuffix(s[1..]);
      var k :| 0 <= k <= |s| - 1 && TrimLeft(s[1..]) == s[1..][k..];
      assert s[1..][k..] == s[k + 1..];
    } else {
      assert s == s[0..];
    }
  }

  /** Trimming takes characters away and adds none. */
  lemma {:induction false} TrimmedChars(s: string)
    ensures forall c :: c in TrimLeft(s) ==> c in s
    ensures forall c :: c in TrimRight(s) ==> c in s
  {
    TrimLeftIsSuffix(s);
  }

  lemma {:induction false} BlankTrimmed(s: string)
    ensures var t := TrimBlank(s);
            (forall c :: c in t ==> c in s) && (t != [] ==> !IsBlank(t[0]) && !IsBlank(t[|t| - 1]))
  {
    TrimmedChars(s);
    TrimmedChars(TrimLeft(s));
    var left, t := TrimLeft(s), TrimBlank(s);
    assert t != [] ==> t[0] == left[0];
  }

  /** What stands before the first blank or "=" of a trimmed line makes a key, what follows the "=" a value. */
  lemma {:induction false} PortionsAreStorable(s: string)
    requires s != [] && s[0] != '#' && s[0] != '=' && !IsBlank(s[0]) && FindEquals(s) < |s|
    requires '\n' !in s && '\0' !in s
    ensures StorableKey(ParamPortion(s)) && StorableValue(ValuePortion(s))
  {
    hide TrimLeft, TrimRight;
    var n := FindKeyEnd(s);
    assert ParamPortion(s) == s[..n];
    var rest := s[FindEquals(s) + 1..];
    assert ValuePortion(s) == TrimBlank(rest);
    BlankTrimmed(rest);
    assert forall c :: c in rest ==> c in s;
  }

  /** Whatever a line without a newline holds, the entry read from it is storable. */
  lemma {:induction false} ParsedIsStorable(line: string)
    requires '\n' !in line
    ensures var parsed := ParseLine(line);
            parsed.Some? ==> StorableKey(parsed.value.0) && StorableValue(parsed.value.1)
  {
    hide CString, FindEquals, TrimBlank, ParamPortion, ValuePortion, StorableKey, StorableValue;
    CStringChars(line);
    BlankTrimmed(CString(line));
    if ParseLine(line).Some? {
      PortionsAreStorable(TrimBlank(CString(line)));
    }
  }

  lemma {:induction false} CStringChars(s: string)
    ensures forall c :: c in CString(s) ==> c in s
  {
    if s != [] && s[0] != '\0' {
      CStringChars(s[1..]);
      assert s == [s[0]] + s[1..];
    }
  }

  // ----- the whole file -----

  /** The lines `getline` takes from a file: one per newline and one for what is behind the last. */
  function Lines(text: string): (lines: seq<string>)
    ensures lines != []
    decreases |text|
  {
    var n := FindNewline(text);
    if n == |text| then [text] else [text[..n]] + Lines(text[n + 1..])
  }

  function FindNewline(text: string): (n: nat)
    ensures n <= |text| && (n < |text| ==> text[n] == '\n')
    ensures forall i :: 0 <= i < n ==> text[i] != '\n'
  {
    NewlineFrom(text, 0)
  }

  function NewlineFrom(text: string, from: nat): (n: nat)
    requires from <= |text|
    ensures from <= n <= |text| && (n < |text| ==> text[n] == '\n')
    ensures forall i :: from <= i < n ==> text[i] != '\n'
    decreases |text| - from
  {
    if from == |text| || text[from] == '\n' then from else NewlineFrom(text, from + 1)
  }

  // ----- what a line of the file means, told from its characters -----

  /** Spaces, tabs, newlines and vertical tabs only. */
  ghost predicate Blanks(s: string) {
    forall c :: c in s ==> c == ' ' || c == '\t' || c == '\n' || c as int == 11
  }

  lemma {:induction false} TrimLeftBlanks(a: string, s: string)
    requires Blanks(a)
    ensures TrimLeft(a + s) == TrimLeft(s)
  {
    if a == [] {
      assert a + s == s;
    } else {
      assert a[0] in a && (a + s)[1..] == a[1..] + s;
      assert forall c :: c in a[1..] ==> c in a;
      TrimLeftBlanks(a[1..], s);
    }
  }

  lemma {:induction false} TrimRightBlanks(s: string, d: string)
    requires Blanks(d)
    ensures TrimRight(s + d) == TrimRight(s)
  {
    if d == [] {
      assert s + d == s;
    } else {
      var n := |d| - 1;
      assert d[n] in d && (s + d)[..|s| + n] == s + d[..n];
      assert forall c :: c in d[..n] ==> c in d;
      TrimRightBlanks(s, d[..n]);
    }
  }

  /** Blanks before and behind a line's text are taken off. */
  lemma {:induction false} BlanksAround(a: string, s: string, d: string)
    requires Blanks(a) && Blanks(d) && '\0' !in s
    requires s != [] && !Blanks([s[0]]) && !Blanks([s[|s| - 1]])
    ensures TrimBlank(CString(a + s + d)) == s
  {
    hide CString;
    assert s[0] in [s[0]] && s[|s| - 1] in [s[|s| - 1]];
    assert '\0' !in a + s + d;
    assert a + s + d == a + (s + d);
    TrimLeftBlanks(a, s + d);
    assert TrimLeft(s + d) == s + d;
    TrimRightBlanks(s, d);
  }

  /** The key ends at the first blank or "=", the value is what stands between the blanks behind the
      first "="; what else stands before that "=" is passed over. */
  lemma {:induction false} LineMeans(a: string, key: string, more: string, b: string, value: string, d: string)
    requires Blanks(a) && Blanks(b) && Blanks(d) && StorableKey(key) && StorableValue(value) && value != []
    requires '=' !in more && '\0' !in more && (more != [] ==> Blanks([more[0]]))
    ensures ParseLine(a + (key + more + "=" + b + value) + d) == Some((key, value))
  {
    assert '\0' !in b;
    hide CString, FindEquals, ParamPortion, TrimLeft, TrimRight, Blanks;
    var s := key + more + "=" + b + value;
    assert key[0] in key;
    KeyStandsFirst(key, more, b + value);
    assert s == key + more + "=" + (b + value);
    assert s[|s| - 1] == value[|value| - 1] && '\0' !in s;
    NotBlank(s[0]);
    NotBlank(s[|s| - 1]);
    BlanksAround(a, s, d);
    TrimLeftBlanks(b, value);
    StorableTrimmed(value);
  }

  lemma NotBlank(c: char)
    ensures Blanks([c]) <==> IsBlank(c)
  {
    assert c in [c];
  }

  lemma {:induction false} KeyStandsFirst(key: string, more: string, rest: string)
    requires StorableKey(key) && '=' !in more && (more != [] ==> Blanks([more[0]]))
    ensures var s := key + more + "=" + rest;
            && FindEquals(s) == |key| + |more| && s[0] == key[0]
            && ParamPortion(s) == key && s[FindEquals(s) + 1..] == rest
  {
    var s := key + more + "=" + rest;
    forall i | 0 <= i < |key| ensures !IsBlank(s[i]) && s[i] != '=' {
      assert s[i] == key[i] && key[i] in key;
    }
    forall i | |key| <= i < |key| + |more| ensures s[i] != '=' {
      assert s[i] == more[i - |key|];
    }
    if more != [] {
      NotBlank(more[0]);
      assert s[|key|] == more[0];
    }
    FindKeyEndAt(s, |key|);
    FindEqualsAt(s, |key| + |more|);
    assert s[..|key|] == key;
  }

  /** Comments, lines without "=", lines that begin with it and empty lines are passed over. */
  lemma {:induction false} LineIsSkipped(a: string, s: string, d: string)
    requires Blanks(a) && Blanks(d) && '\0' !in s
    requires s != [] ==> !Blanks([s[0]]) && !Blanks([s[|s| - 1]])
    requires s == [] || s[0] == '#' || s[0] == '=' || '=' !in s
    ensures ParseLine(a + s + d) == None
  {
    if s == [] {
      assert a + s + d == a + d && '\0' !in a + d;
      TrimLeftBlanks(a + d, []);
      assert (a + d) + [] == a + d;
    } else {
      BlanksAround(a, s, d);
    }
  }

  /** A NUL ends the line. */
  lemma {:induction false} NulEndsLine(s: string, more: string)
    requires '\0' !in s
    ensures ParseLine(s + ['\0'] + more) == ParseLine(s)
  {
    CStringStops(s, more);
  }

  lemma {:induction false} CStringStops(s: string, more: string)
    requires '\0' !in s
    ensures CString(s + ['\0'] + more) == s == CString(s)
  {
    var text := s + ['\0'] + more;
    if s == [] {
    } else {
      assert s[0] in s && text[0] == s[0] && text[1..] == s[1..] + ['\0'] + more;
      CStringStops(s[1..], more);
    }
  }

  // ----- files and the reader's buffer -----

  /** Every line fits the reader's buffer with its closing NUL. */
  ghost predicate FitsBuffer(text: string) {
    forall line :: line in Lines(text) ==> |line| < BUFFER_SIZE
  }

  function PutLine(repository: map<string, string>, line: string): map<string, string> {
    match ParseLine(line)
    case None => repository
    case Some((key, value)) => repository[key := value]
  }

  function ParseLines(lines: seq<string>, repository: map<string, string>): map<string, string> {
    if lines == [] then repository else ParseLines(lines[1..], PutLine(repository, lines[0]))
  }

  /** `__parse_config` on an empty repository. */
  function Parse(text: string): map<string, string> {
    ParseLines(Lines(text), map[])
  }

  /** What `flush` writes when it passes the entries in the order `order`. */
  function Print(order: seq<string>, repository: map<string, string>): string
    requires forall k :: k in order ==> k in repository
  {
    if order == [] then []
    else PrintLine(order[0], repository[order[0]]) + ['\n'] + Print(order[1..], repository)
  }

  ghost predicate Storable(repository: map<string, string>) {
    forall k :: k in repository ==> StorableKey(k) && StorableValue(repository[k])
  }

  ghost predicate Writable(repository: map<string, string>) {
    forall k :: k in repository ==> StorableKey(k) && WritableValue(repository[k])
  }

  function TrimValues(repository: map<string, string>): map<string, string> {
    map k | k in repository :: TrimBlank(repository[k])
  }

  lemma FirstLine(line: string, rest: string)
    requires '\n' !in line
    ensures Lines(line + ['\n'] + rest) == [line] + Lines(rest)
  {
    var text := line + ['\n'] + rest;
    var n := FindNewline(text);
    assert text[|line|] == '\n';
    assert forall i :: 0 <= i < |line| ==> text[i] == line[i] && line[i] in line;
    assert n == |line|;
    assert text[..n] == line && text[n + 1..] == rest;
  }

  lemma {:induction false} OneLine(line: string)
    requires '\n' !in line
    ensures Lines(line) == [line]
    ensures Parse(line) == PutLine(map[], line)
    ensures FitsBuffer(line) <==> |line| < 10000
  {
    hide PutLine;
    assert FindNewline(line) == |line|;
    ParseFirst(line, [], map[]);
    assert [line] + [] == [line];
  }

  lemma WrittenLineHasNoNewline(key: string, value: string)
    requires StorableKey(key) && WritableValue(value)
    ensures '\n' !in PrintLine(key, value)
  {
  }

  /** Entries put into a repository one after the other. */
  ghost function PutAll(order: seq<string>, repository: map<string, string>, before: map<string, string>)
    : map<string, string>
    requires forall k :: k in order ==> k in repository
  {
    if order == [] then before
    else PutAll(order[1..], repository, before[order[0] := repository[order[0]]])
  }

  lemma {:induction false} ParsePrinted(order: seq<string>, repository: map<string, string>,
      before: map<string, string>)
    requires forall k :: k in order ==> k in repository
    requires Writable(repository)
    ensures ParseLines(Lines(Print(order, repository)), before) == PutAll(order, TrimValues(repository), before)
  {
    if order == [] {
      assert Lines([]) == [[]];
      assert Lines([])[1..] == [];
      assert ParseLine([]).None?;
    } else {
      var key, rest := order[0], Print(order[1..], repository);
      var line := PrintLine(key, repository[key]);
      WrittenLine(key, repository[key]);
      WrittenLineHasNoNewline(key, repository[key]);
      FirstLine(line, rest);
      ParseFirst(line, Lines(rest), before);
      ParsePrinted(order[1..], repository, before[key := TrimBlank(repository[key])]);
    }
  }

  lemma ParseFirst(line: string, rest: seq<string>, before: map<string, string>)
    ensures ParseLines([line] + rest, before) == ParseLines(rest, PutLine(before, line))
  {
  }

  lemma {:induction false} PutAllGives(order: seq<string>, repository: map<string, string>, before: map<string, string>)
    requires forall k :: k in order ==> k in repository
    requires forall k :: k in before ==> k in repository && before[k] == repository[k]
    requires forall k :: k in repository ==> k in order || k in before
    ensures PutAll(order, repository, before) == repository
  {
    if order == [] {
    } else {
      assert order == [order[0]] + order[1..];
      PutAllGives(order[1..], repository, before[order[0] := repository[order[0]]]);
    }
  }

  lemma {:induction false} LinesHaveNoNewline(text: string)
    ensures forall line :: line in Lines(text) ==> '\n' !in line
    decreases |text|
  {
    var n := FindNewline(text);
    if n == |text| {
    } else {
      LinesHaveNoNewline(text[n + 1..]);
      assert '\n' !in text[..n];
    }
  }

  lemma {:induction false} ParseLinesStorable(lines: seq<string>, before: map<string, string>)
    requires forall line :: line in lines ==> '\n' !in line
    requires Storable(before)
    ensures Storable(ParseLines(lines, before))
  {
    if lines == [] {
    } else {
      ParsedIsStorable(lines[0]);
      ParseLinesStorable(lines[1..], PutLine(before, lines[0]));
    }
  }

  /** A file is read into storable entries, whoever wrote it. */
  lemma ParseIsStorable(text: string)
    ensures Storable(Parse(text))
  {
    LinesHaveNoNewline(text);
    ParseLinesStorable(Lines(text), map[]);
  }

  /** Values that stay on their lines are read back without the blanks around them. */
  lemma {:induction false} PrintParseTrims(order: seq<string>, repository: map<string, string>)
    requires Enumerates(order, repository.Keys) && Writable(repository)
    ensures Parse(Print(order, repository)) == TrimValues(repository)
  {
    hide ParseLines, Lines, Print;
    ParsePrinted(order, repository, map[]);
    PutAllGives(order, TrimValues(repository), map[]);
  }

  /** The file written has a line "key = value" for each entry, in the order they are passed, and ends
      with a newline. */
  lemma {:induction false} PrintedLines(order: seq<string>, repository: map<string, string>)
    requires (forall k :: k in order ==> k in repository) && Writable(repository)
    ensures var lines := Lines(Print(order, repository));
            && |lines| == |order| + 1 && lines[|order|] == []
            && forall i :: 0 <= i < |order| ==> lines[i] == order[i] + " = " + repository[order[i]]
  {
    if order == [] {
      assert Lines([]) == [[]];
    } else {
      var key, rest := order[0], order[1..];
      WrittenLineHasNoNewline(key, repository[key]);
      FirstLine(PrintLine(key, repository[key]), Print(rest, repository));
      PrintedLines(rest, repository);
    }
  }

  /** Reading what `flush` wrote gives the repository back exactly when all its entries are storable. */
  lemma PrintParse(order: seq<string>, repository: map<string, string>)
    requires Enumerates(order, repository.Keys)
    ensures Parse(Print(order, repository)) == repository <==> Storable(repository)
  {
    ParseIsStorable(Print(order, repository));
    if Storable(repository) {
      PrintParseTrims(order, repository);
      forall k | k in repository ensures TrimBlank(repository[k]) == repository[k] {
        StorableTrimmed(repository[k]);
      }
    }
  }

  /** The written file fits the reader's buffer exactly when each entry does with its " = ". */
  lemma {:induction false} PrintFits(order: seq<string>, repository: map<string, string>)
    requires forall k :: k in order ==> k in repository
    requires Writable(repository)
    ensures FitsBuffer(Print(order, repository)) <==>
            forall k :: k in order ==> |k| + 3 + |repository[k]| < BUFFER_SIZE
  {
    if order == [] {
      assert Lines([]) == [[]];
    } else {
      var key, rest := order[0], order[1..];
      var line := PrintLine(key, repository[key]);
      WrittenLineHasNoNewline(key, repository[key]);
      FirstLine(line, Print(rest, repository));
      PrintFits(rest, repository);
      assert order == [key] + rest;
    }
  }

  /** A line that sets the key. */
  ghost predicate Sets(line: string, key: string) {
    ParseLine(line).Some? && ParseLine(line).value.0 == key
  }

  ghost predicate NoneSets(lines: seq<string>, from: int, key: string) {
    forall i :: 0 <= from <= i < |lines| ==> !Sets(lines[i], key)
  }

  /** Of several lines for one key the last one counts, and all lines count over what was there before. */
  lemma {:induction false} LastLineWins(lines: seq<string>, before: map<string, string>, key: string)
    ensures NoneSets(lines, 0, key) ==>
            Lookup(ParseLines(lines, before), key) == Lookup(before, key)
    ensures forall i ::
              0 <= i < |lines| && Sets(lines[i], key) && NoneSets(lines, i + 1, key) ==>
              Lookup(ParseLines(lines, before), key) == Some(ParseLine(lines[i]).value.1)
  {
    hide ParseLine;
    if lines == [] {
    } else {
      var rest := lines[1..];
      LastLineWins(rest, PutLine(before, lines[0]), key);
      assert forall i :: 0 <= i < |rest| ==> rest[i] == lines[i + 1];
      forall i | 0 <= i < |lines| && Sets(lines[i], key) && NoneSets(lines, i + 1, key)
        ensures Lookup(ParseLines(lines, before), key) == Some(ParseLine(lines[i]).value.1)
      {
        if i > 0 {
          assert Sets(rest[i - 1], key) && NoneSets(rest, i, key);
        } else {
          assert NoneSets(rest, 0, key);
        }
      }
    }
  }

  // ----- the loop that reads a file -----

  /** An input stream: how far it was read, and its state bits. */
  datatype Stream = Stream(pos: nat, eof: bool, fail: bool)

  /** `istream::getline` with the buffer of the source. A line that does not fit is cut and sets `fail`;
      a stream that is not good gives nothing, sets `fail` and leaves `eof` as it is. */
  function GetLine(text: string, s: Stream): (r: (string, Stream))
    requires s.pos <= |text|
    ensures s.pos <= r.1.pos <= |text|
  {
    var n := FindNewline(text[s.pos..]);
    if s.eof || s.fail then ([], s.(fail := true))
    else if n >= BUFFER_SIZE
    then (text[s.pos..s.pos + BUFFER_SIZE - 1], Stream(s.pos + BUFFER_SIZE - 1, false, true))
    else if s.pos + n == |text| then (text[s.pos..], Stream(|text|, true, n == 0))
    else (text[s.pos..s.pos + n], Stream(s.pos + n + 1, false, false))
  }

  /** What the loop has after so many passes. It stops at the end of the file. */
  datatype Reader = Reader(stream: Stream, repository: map<string, string>)

  function Reading(text: string, passes: nat): (r: Reader)
    ensures r.stream.pos <= |text|
  {
    if passes == 0 then Reader(Stream(0, false, false), map[])
    else ReadPass(text, Reading(text, passes - 1))
  }

  function ReadPass(text: string, r: Reader): (r': Reader)
    requires r.stream.pos <= |text|
    ensures r'.stream.pos <= |text|
  {
    if r.stream.eof then r
    else
      var (line, next) := GetLine(text, r.stream);
      Reader(next, PutLine(r.repository, line))
  }

  /** The lines still to read. */
  function LinesLeft(text: string, s: Stream): seq<string>
    requires s.pos <= |text|
  {
    if s.eof then [] else Lines(text[s.pos..])
  }

  ghost predicate AllFit(lines: seq<string>) {
    forall line :: line in lines ==> |line| < BUFFER_SIZE
  }

  /** A reader that failed short of the end met a line that does not fit. Any other one has put the
      lines it read, which fit, into its repository. */
  ghost predicate ReaderInv(text: string, r: Reader)
    requires r.stream.pos <= |text|
  {
    if r.stream.fail && !r.stream.eof then !FitsBuffer(text)
    else
      && ParseLines(LinesLeft(text, r.stream), r.repository) == Parse(text)
      && (FitsBuffer(text) <==> AllFit(LinesLeft(text, r.stream)))
  }

  /** The line a good stream takes is the first of those left. */
  lemma {:induction false} LinesStep(text: string, s: Stream)
    requires s.pos <= |text| && !s.eof && !s.fail
    ensures var (line, next) := GetLine(text, s);
            if next.fail && !next.eof then !AllFit(LinesLeft(text, s))
            else LinesLeft(text, s) == [line] + LinesLeft(text, next)
    ensures var next := GetLine(text, s).1; next.eof || next.fail || next.pos > s.pos
  {
    var rest := text[s.pos..];
    var n := FindNewline(rest);
    assert rest[..n] == text[s.pos..s.pos + n];
    assert Lines(rest)[0] == rest[..n];
    if n < |rest| {
      assert rest[n + 1..] == text[s.pos + n + 1..];
    }
  }

  lemma {:induction false} PassKeepsInv(text: string, r: Reader)
    requires r.stream.pos <= |text| && ReaderInv(text, r)
    ensures ReaderInv(text, ReadPass(text, r))
  {
    hide Lines, FindNewline, ParseLines, PutLine, Parse, FitsBuffer;
    if !r.stream.eof && !r.stream.fail {
      hide GetLine, LinesLeft;
      LinesStep(text, r.stream);
      var (line, next) := GetLine(text, r.stream);
      if !next.fail || next.eof {
        ParseFirst(line, LinesLeft(text, next), r.repository);
      }
    }
  }

  lemma StartInv(text: string)
    ensures ReaderInv(text, Reading(text, 0))
  {
    hide Lines, ParseLines;
    assert text[0..] == text;
  }

  lemma {:induction false} ReadingInv(text: string, passes: nat)
    ensures ReaderInv(text, Reading(text, passes))
  {
    hide ReadPass, ReaderInv;
    if passes == 0 {
      StartInv(text);
    } else {
      ReadingInv(text, passes - 1);
      PassKeepsInv(text, Reading(text, passes - 1));
    }
  }

  /** A loop that has not stopped went on by a character in each pass. */
  lemma {:induction false} ReadingMoves(text: string, passes: nat)
    requires FitsBuffer(text)
    ensures var s := Reading(text, passes).stream; s.eof || (!s.fail && s.pos >= passes)
  {
    if passes == 0 {
    } else {
      hide Lines, FindNewline, PutLine, FitsBuffer, GetLine;
      ReadingMoves(text, passes - 1);
      ReadingInv(text, passes);
      var before := Reading(text, passes - 1).stream;
      if !before.eof {
        LinesStep(text, before);
      }
    }
  }

  /** A loop that stopped has read the whole file, and its lines all fit. */
  lemma {:induction false} ReadWhole(text: string, passes: nat)
    requires Reading(text, passes).stream.eof
    ensures FitsBuffer(text) && Reading(text, passes).repository == Parse(text)
  {
    hide Reading, Lines, FitsBuffer;
    ReadingInv(text, passes);
  }

  lemma {:induction false} EndsInTime(text: string)
    requires FitsBuffer(text)
    ensures Reading(text, |text| + 1).stream.eof
  {
    hide Reading, Lines, FitsBuffer;
    ReadingMoves(text, |text| + 1);
  }

  /** The loop comes to the end of the file exactly when every line fits the buffer, and then it has
      read the whole file, in at most one pass for each character and one more. On any other file it
      never ends. */
  lemma {:induction false} ReadingEnds(text: string)
    ensures (exists passes :: Reading(text, passes).stream.eof) <==> FitsBuffer(text)
    ensures FitsBuffer(text) ==> Reading(text, |text| + 1).stream.eof
    ensures forall passes :: Reading(text, passes).stream.eof ==> Reading(text, passes).repository == Parse(text)
  {
    hide Reading, Parse, FitsBuffer;
    forall passes | Reading(text, passes).stream.eof
      ensures FitsBuffer(text) && Reading(text, passes).repository == Parse(text)
    {
      ReadWhole(text, passes);
    }
    if FitsBuffer(text) {
      EndsInTime(text);
    }
  }
}
