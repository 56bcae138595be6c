/** The global configuration repository of one process (src/scim_global_config.cpp). */
module GlobalConfig {
  import opened Common
  import opened ConfigText
  import opened StringList
  import Numbers

  datatype Change = Updated | Erased

  // ----- the repository as a value -----

  datatype Repository = Repository(
    sys: map<string, string>,
    usr: map<string, string>,
    updated: map<string, Change>,
    initialized: bool)

  /** The two files, `None` for one that cannot be opened. */
  datatype Disk = Disk(sysFile: Option<string>, usrFile: Option<string>)

  ghost predicate Readable(disk: Disk) {
    && (disk.sysFile.Some? ==> FitsBuffer(disk.sysFile.value))
    && (disk.usrFile.Some? ==> FitsBuffer(disk.usrFile.value))
  }

  function ParseFile(file: Option<string>): map<string, string> {
    match file
    case None => map[]
    case Some(text) => Parse(text)
  }

  function Reload(r: Repository, disk: Disk): Repository {
    r.(sys := ParseFile(disk.sysFile), usr := ParseFile(disk.usrFile),
       initialized := r.initialized || disk.sysFile.Some? || disk.usrFile.Some?)
  }

  function Ready(r: Repository, disk: Disk): Repository {
    if r.initialized then r else Reload(r, disk)
  }

  /** The value found for a key: the user's before the system's. */
  function Find(r: Repository, key: string): Option<string> {
    if !r.initialized then None
    else if key in r.usr then Some(r.usr[key])
    else Lookup(r.sys, key)
  }

  function Write(r: Repository, key: string, value: string): Repository {
    if r.initialized && key != []
    then r.(usr := r.usr[key := value], updated := r.updated[key := Updated])
    else r
  }

  function Reset(r: Repository, key: string): Repository {
    if r.initialized && key != []
    then r.(usr := r.usr - {key}, updated := r.updated[key := Erased])
    else r
  }

  /** The logged changes put over `base`, with the values `backup` has for them. */
  function Overlay(base: map<string, string>, log: map<string, Change>, backup: map<string, string>)
    : map<string, string>
  {
    map k | k in base.Keys + log.Keys && (k in log ==> log[k].Updated?) ::
      if k in log then AtOrEmpty(backup, k) else base[k]
  }

  /** What the process holds after it read the files again and put its changes over them. */
  function Merged(r: Repository, disk: Disk): Repository {
    Reload(r, disk).(usr := Overlay(ParseFile(disk.usrFile), r.updated, r.usr))
  }

  lemma OverlayStep(base: map<string, string>, log: map<string, Change>, backup: map<string, string>,
                    key: string, change: Change)
    ensures Overlay(base, log[key := change], backup) ==
            var before := Overlay(base, log, backup);
            if change.Updated? then before[key := AtOrEmpty(backup, key)] else before - {key}
  {
  }

  /** Everything `flush` may do, for each way it can end. */
  ghost predicate FlushResult(r: Repository, disk: Disk, dirUsable: bool, writable: bool,
                              r': Repository, disk': Disk, ok: bool)
  {
    if !r.initialized then !ok && r' == r && disk' == disk
    else if r.updated == map[] then ok && r' == r && disk' == disk
    else if !dirUsable then !ok && r' == r && disk' == disk
    else if !writable then !ok && r' == Merged(r, disk) && disk' == disk
    else ok && r' == Merged(r, disk).(updated := map[]) && disk'.sysFile == disk.sysFile
         && disk'.usrFile.Some? && IsPrintOf(disk'.usrFile.value, r'.usr)
  }

  /** `text` lists the entries of `m`, in some order. */
  ghost predicate IsPrintOf(text: string, m: map<string, string>) {
    exists order :: Enumerates(order, m.Keys) && text == Print(order, m)
  }

  /** A flush succeeds exactly when there is nothing to do or the file could be written, and drops the
      changes only then; without a usable directory it does not even read. The file it writes holds what
      the process holds. */
  lemma {:induction false} FlushReports(r: Repository, disk: Disk, dirUsable: bool, writable: bool,
                                        r': Repository, disk': Disk, ok: bool)
    requires FlushResult(r, disk, dirUsable, writable, r', disk', ok)
    ensures ok <==> r.initialized && (r.updated.Keys == {} || (dirUsable && writable))
    ensures disk' != disk ==> ok && r.updated.Keys != {}
    ensures disk'.sysFile == disk.sysFile
    ensures !ok || r.updated.Keys == {} ==> r'.updated == r.updated
    ensures ok ==> r'.updated == map[]
    ensures !r.initialized || r.updated.Keys == {} || !dirUsable ==> r' == r
    ensures ok && r.updated.Keys != {} ==> disk'.usrFile.Some? && IsPrintOf(disk'.usrFile.value, r'.usr)
  {
    hide IsPrintOf, Parse, Overlay;
    assert r.updated.Keys == {} <==> r.updated == map[];
  }

  /** The value found is the user's when there is one, else the system's. */
  lemma {:induction false} UserBeforeSystem(r: Repository, key: string)
    requires r.initialized
    ensures key in r.usr ==> Find(r, key) == Some(r.usr[key])
    ensures key !in r.usr && key in r.sys ==> Find(r, key) == Some(r.sys[key])
    ensures key !in r.usr && key !in r.sys ==> Find(r, key) == None
  {
  }

  // ----- the change log -----

  ghost predicate LogConsistent(r: Repository) {
    forall k :: k in r.updated ==> (k in r.usr <==> r.updated[k].Updated?)
  }

  /** Every operation, and a flush however it ends, keeps a key logged "updated" in `usr` and a key
      logged "erased" out of it. */
  lemma LogStaysConsistent(r: Repository, disk: Disk, key: string, value: string)
    requires LogConsistent(r)
    ensures LogConsistent(Write(r, key, value))
    ensures LogConsistent(Reset(r, key))
    ensures LogConsistent(Merged(r, disk))
  {
  }

  /** The overlay never makes up a value: each logged write keeps the value written, each erased key
      is gone, and each other key has the file's value. */
  lemma MergedAt(r: Repository, disk: Disk, key: string)
    requires LogConsistent(r)
    ensures Lookup(Merged(r, disk).usr, key) ==
            if key in r.updated then Lookup(r.usr, key) else Lookup(ParseFile(disk.usrFile), key)
  {
  }

  /** Reads of the logged keys agree before and after a flush that finds the system file unchanged. */
  lemma FlushKeepsReads(r: Repository, disk: Disk, key: string)
    requires LogConsistent(r) && r.initialized && key in r.updated
    requires ParseFile(disk.sysFile) == r.sys
    ensures Find(Merged(r, disk), key) == Find(r, key)
  {
  }

  /** A flush that could not open its output loses nothing: trying again, on whatever the file has
      become meanwhile, merges the same changes. */
  lemma RetryMergesTheSame(r: Repository, disk: Disk, later: Disk)
    requires LogConsistent(r) && r.initialized
    ensures Merged(Merged(r, disk), later) == Merged(r, later)
  {
  }

  // ----- whether the file written can be read again -----

  /** The changes are ones that stay on their lines. */
  ghost predicate WritableChanges(r: Repository) {
    forall k :: k in r.updated && k in r.usr ==> StorableKey(k) && WritableValue(r.usr[k])
  }

  lemma {:induction false} MergedIsWritable(r: Repository, disk: Disk)
    requires LogConsistent(r) && WritableChanges(r)
    ensures Writable(Merged(r, disk).usr)
  {
    hide Parse, StorableKey, Overlay;
    var usr := Merged(r, disk).usr;
    match disk.usrFile {
      case None =>
      case Some(text) => ParseIsStorable(text);
    }
    forall k | k in usr ensures StorableKey(k) && WritableValue(usr[k]) {
      MergedAt(r, disk, k);
      assert Lookup(usr, k) == Some(usr[k]);
      assert k in r.updated ==> k in r.usr && r.usr[k] == usr[k];
    }
  }

  /** After a flush the file fits the reader's buffer exactly when every entry, changed or not, does
      with its " = ". */
  lemma {:induction false} FlushedFits(r: Repository, disk: Disk, r': Repository, disk': Disk)
    requires LogConsistent(r) && WritableChanges(r) && r.initialized && r.updated != map[]
    requires FlushResult(r, disk, true, true, r', disk', true)
    ensures disk'.usrFile.Some?
    ensures FitsBuffer(disk'.usrFile.value) <==>
            forall k :: k in Merged(r, disk).usr ==> |k| + 3 + |Merged(r, disk).usr[k]| < BUFFER_SIZE
  {
    hide Print, Parse, StorableKey, WritableValue, Overlay, FitsBuffer;
    MergedIsWritable(r, disk);
    var order :| Enumerates(order, r'.usr.Keys) && disk'.usrFile.value == Print(order, r'.usr);
    PrintFits(order, r'.usr);
  }

  /** A value that leaves room for "k=" in the reader's buffer, and for nothing more. */
  const LONG_VALUE: string := seq(9997, _ => 'v')

  lemma {:induction false} LongLine()
    ensures StorableValue(LONG_VALUE) && StorableKey("k")
    ensures FitsBuffer("k=" + LONG_VALUE) && Parse("k=" + LONG_VALUE) == map["k" := LONG_VALUE]
  {
    hide ParseLine, Parse, FitsBuffer;
    TightLine("k", LONG_VALUE);
    assert "k" + "=" + LONG_VALUE == "k=" + LONG_VALUE;
    OneLine("k=" + LONG_VALUE);
  }

  /** The line "k=v...v" fits the buffer. Flushing another key rewrites it with a blank on both sides of
      the "=", then it does not, and a process that reads the file never ends. */
  lemma {:induction false} FlushOutgrowsBuffer(r: Repository, disk: Disk, r': Repository, disk': Disk)
    requires LogConsistent(r) && WritableChanges(r) && r.initialized && r.updated != map[] && "k" !in r.updated
    requires disk.usrFile == Some("k=" + LONG_VALUE)
    requires FlushResult(r, disk, true, true, r', disk', true)
    ensures exists passes :: Reading(disk.usrFile.value, passes).stream.eof
    ensures disk'.usrFile.Some? && forall passes :: !Reading(disk'.usrFile.value, passes).stream.eof
  {
    hide Parse, FitsBuffer, WritableChanges, Overlay, Reading;
    LongLine();
    ReadingEnds(disk.usrFile.value);
    FlushedFits(r, disk, r', disk');
    ReadingEnds(disk'.usrFile.value);
    MergedAt(r, disk, "k");
    assert Lookup(Merged(r, disk).usr, "k") == Some(LONG_VALUE);
  }

  // ----- typed entries -----

  function ToInt32(v: int): int32 {
    (v + 0x8000_0000) % 0x1_0000_0000 - 0x8000_0000
  }

  function EncodeInts(vals: seq<int32>): string {
    Join(Decimals(vals), ',')
  }

  function Decimals(vals: seq<int32>): (strs: seq<string>)
    ensures |strs| == |vals| && forall i :: 0 <= i < |vals| ==> strs[i] == Numbers.Decimal(vals[i])
  {
    seq(|vals|, i requires 0 <= i < |vals| => Numbers.Decimal(vals[i]))
  }

  function DecodeInt(value: Option<string>, defVal: int32): int32 {
    if value.Some? && value.value != [] then ToInt32(Numbers.Strtol(value.value, Numbers.Ten)) else defVal
  }

  function DecodeInts(value: Option<string>, defVal: seq<int32>): seq<int32> {
    if value.Some? && value.value != [] then ReadInts(Split(value.value, ',')) else defVal
  }

  function ReadInts(strs: seq<string>): (vals: seq<int32>)
    ensures |vals| == |strs|
    ensures forall i :: 0 <= i < |strs| ==> vals[i] == ToInt32(Numbers.Strtol(strs[i], Numbers.Ten))
  {
    seq(|strs|, i requires 0 <= i < |strs| => ToInt32(Numbers.Strtol(strs[i], Numbers.Ten)))
  }

  function DecodeStrings(value: Option<string>, defVal: seq<string>): seq<string> {
    if value.Some? && value.value != [] then Split(value.value, ',') else defVal
  }

  function EncodeBool(val: bool): string {
    if val then "true" else "false"
  }

  function DecodeBool(value: Option<string>, defVal: bool): bool {
    if value.None? then defVal
    else if value.value in ["true", "TRUE", "True", "1"] then true
    else if value.value in ["false", "FALSE", "False", "0"] then false
    else defVal
  }

  lemma IntRoundTrip(val: int32, defVal: int32)
    ensures DecodeInt(Some(Numbers.Decimal(val)), defVal) == val
  {
    Numbers.DecimalRoundTrip(val);
  }

  lemma {:induction false} DecimalsAreRead(vals: seq<int32>)
    ensures ReadInts(Decimals(vals)) == vals
    ensures Joinable(Decimals(vals), ',')
    ensures forall s :: s in Decimals(vals) ==> s != []
  {
    forall i | 0 <= i < |vals|
      ensures ReadInts(Decimals(vals))[i] == vals[i] && Decimals(vals)[i] != [] && ',' !in Decimals(vals)[i]
    {
      Numbers.DecimalRoundTrip(vals[i]);
    }
  }

  /** A list of ints written is the list read, unless it is empty: then the default is read. */
  lemma {:induction false} IntListRoundTrip(vals: seq<int32>, defVal: seq<int32>)
    ensures DecodeInts(Some(EncodeInts(vals)), defVal) == if vals == [] then defVal else vals
  {
    var strs := Decimals(vals);
    DecimalsAreRead(vals);
    JoinEmpty(strs, ',');
    RoundTrip(strs, ',');
    assert vals != [] ==> strs[0] in strs;
  }

  /** A list of ints is a value the file can hold: it has no blanks at all. */
  lemma {:induction false} EncodedIsStorable(vals: seq<int32>)
    ensures StorableValue(EncodeInts(vals))
  {
    hide Join;
    var strs := Decimals(vals);
    forall c: char | IsBlank(c) || c == '\0' ensures c !in EncodeInts(vals) {
      forall s | s in strs ensures c !in s {
        var i :| 0 <= i < |strs| && strs[i] == s;
        Numbers.DecimalChars(vals[i]);
      }
      JoinAvoids(strs, ',', c);
    }
  }

  /** A list of strings written is the list read exactly when it is joinable, or when what is written
      is empty and the default happens to be the list. */
  lemma StringListRoundTrip(vals: seq<string>, defVal: seq<string>)
    ensures DecodeStrings(Some(Join(vals, ',')), defVal) == vals <==>
            if vals == [] || vals == [[]] then defVal == vals else Joinable(vals, ',')
  {
    JoinEmpty(vals, ',');
    RoundTrip(vals, ',');
  }

  /** Four spellings are true and four are false; any other value, and none, is the default. */
  lemma {:induction false} BoolSpellings(text: string, defVal: bool)
    ensures DecodeBool(Some("true"), defVal) && DecodeBool(Some("TRUE"), defVal)
    ensures DecodeBool(Some("True"), defVal) && DecodeBool(Some("1"), defVal)
    ensures !DecodeBool(Some("false"), defVal) && !DecodeBool(Some("FALSE"), defVal)
    ensures !DecodeBool(Some("False"), defVal) && !DecodeBool(Some("0"), defVal)
    ensures text !in ["true", "TRUE", "True", "1", "false", "FALSE", "False", "0"] ==>
            DecodeBool(Some(text), defVal) == defVal
    ensures DecodeBool(None, defVal) == defVal
    ensures EncodeBool(true) == "true" && EncodeBool(false) == "false"
  {
  }

  /** Ints are written in decimal with commas between them, and read so. */
  lemma {:induction false} IntListText(a: int32, b: int32, defVal: seq<int32>)
    ensures EncodeInts([a, b]) == Numbers.Decimal(a) + "," + Numbers.Decimal(b)
    ensures EncodeInts([12, -3]) == "12,-3" && DecodeInts(Some("12,-3"), defVal) == [12, -3]
  {
    hide Numbers.Decimal, Join, DecodeInts;
    assert Decimals([a, b]) == [Numbers.Decimal(a)] + [Numbers.Decimal(b)];
    JoinSnoc([Numbers.Decimal(a)], Numbers.Decimal(b), ',');
    JoinOfOne(Numbers.Decimal(a));
    assert Decimals([12, -3]) == [Numbers.Decimal(12)] + [Numbers.Decimal(-3)];
    JoinSnoc([Numbers.Decimal(12)], Numbers.Decimal(-3), ',');
    JoinOfOne(Numbers.Decimal(12));
    Numbers.DecimalSamples();
    assert "12" + [','] + "-3" == "12,-3";
    IntListRoundTrip([12, -3], defVal);
  }

  lemma JoinOfOne(a: string)
    ensures Join([a], ',') == a
  {
  }

  /** An int is what `strtol` reads, cut to 32 bits; without a text the default is read. */
  lemma {:induction false} IntIsCut(text: string, defVal: int32)
    ensures DecodeInt(None, defVal) == defVal && DecodeInt(Some(""), defVal) == defVal
    ensures text != [] ==>
            exists k: int :: Numbers.Strtol(text, Numbers.Ten) == DecodeInt(Some(text), defVal) + k * 0x1_0000_0000
  {
    var v := Numbers.Strtol(text, Numbers.Ten);
    var k := (v + 0x8000_0000) / 0x1_0000_0000;
    assert text != [] ==> v == DecodeInt(Some(text), defVal) + k * 0x1_0000_0000;
  }

  lemma BoolRoundTrip(val: bool, defVal: bool)
    ensures DecodeBool(Some(EncodeBool(val)), defVal) == val
  {
  }

  // ----- the process -----

  /** The files of a user and what the system lets the process do with them. */
  class FileSystem {
    var sysFile: Option<string>
    var usrFile: Option<string>
    var dirUsable: bool   // the directory is there, or can be made
    var writable: bool    // the user's file opens for writing

    ghost function Content(): Disk
      reads this
    {
      Disk(sysFile, usrFile)
    }
  }

  class GlobalConfigRepository {
    var sys: map<string, string>
    var usr: map<string, string>
    var updated: map<string, Change>
    var initialized: bool
    const files: FileSystem

    ghost function Model(): Repository
      reads this
    {
      Repository(sys, usr, updated, initialized)
    }

    ghost predicate Valid()
      reads this
    {
      LogConsistent(Model()) && (updated != map[] ==> initialized)
    }

    constructor (files: FileSystem)
      ensures Valid() && this.files == files
      ensures Model() == Repository(map[], map[], map[], false)
    {
      sys, usr, updated, initialized := map[], map[], map[], false;
      this.files := files;
    }

    /** `getline`: characters are stored up to a newline, which is taken too, the end of the file or the
        end of the buffer, looked for in this order. */
    method TakeLine(text: string, s: Stream) returns (line: string, next: Stream)
      requires s.pos <= |text|
      ensures (line, next) == GetLine(text, s)
    {
      hide FindNewline;
      line := "";
      if s.eof || s.fail { return line, s.(fail := true); }
      var pos := s.pos;
      while pos < |text| && text[pos] != '\n' && |line| < BUFFER_SIZE - 1
        invariant s.pos <= pos <= |text| && line == text[s.pos..pos] && |line| < BUFFER_SIZE
        invariant forall i :: s.pos <= i < pos ==> text[i] != '\n'
      {
        line := line + [text[pos]];
        pos := pos + 1;
      }
      TakenLine(text, s, pos);
      hide GetLine;
      if pos == |text| {
        next := Stream(pos, true, |line| == 0);
      } else if text[pos] == '\n' {
        next := Stream(pos + 1, false, false);
      } else {
        next := Stream(pos, false, true);
      }
    }

    /** One pass of the loop of `__parse_config`. */
    method ParseNext(text: string, r: Reader) returns (r': Reader)
      requires r.stream.pos <= |text| && !r.stream.eof
      ensures r' == ReadPass(text, r)
    {
      hide GetLine, ParseLine;
      var line, next := TakeLine(text, r.stream);
      var repository := r.repository;
      var parsed := ParseLine(line);
      if parsed.Some? {
        repository := repository[parsed.value.0 := parsed.value.1];
      }
      r' := Reader(next, repository);
    }

    /** `__parse_config`: read line by line to the end of the file. A caller must know that the loop
        ends: `ReadingEnds` shows that it does on these files and on no other. */
    method ParseConfig(text: string) returns (repository: map<string, string>)
      requires FitsBuffer(text)
      ensures repository == Parse(text)
    {
      hide *;
      var r := Reader(Stream(0, false, false), map[]);
      ghost var passes := 0;
      NoPass(text);
      EndsInTime(text);
      while !r.stream.eof
        invariant passes <= |text| + 1 && r == Reading(text, passes)
        decreases |text| + 1 - passes
      {
        PassGives(text, passes);
        r := ParseNext(text, r);
        passes := passes + 1;
      }
      ReadWhole(text, passes);
      repository := r.repository;
    }

    method InitializeConfig()
      requires Readable(files.Content())
      modifies this
      ensures Model() == Reload(old(Model()), files.Content())
    {
      sys, usr := map[], map[];
      if files.sysFile.Some? {
        sys := ParseConfig(files.sysFile.value);
        initialized := true;
      }
      if files.usrFile.Some? {
        usr := ParseConfig(files.usrFile.value);
        initialized := true;
      }
    }

    method Prepare()
      requires Valid() && Readable(files.Content())
      modifies this
      ensures Valid() && Model() == Ready(old(Model()), files.Content())
    {
      if !initialized {
        InitializeConfig();
      }
    }

    method FindValue(key: string) returns (value: Option<string>)
      requires Valid() && Readable(files.Content())
      modifies this
      ensures Valid() && Model() == Ready(old(Model()), files.Content())
      ensures value == Find(Model(), key)
    {
      Prepare();
      if !initialized { return None; }
      if key in usr { return Some(usr[key]); }
      value := if key in sys then Some(sys[key]) else None;
    }

    method ReadString(key: string, defVal: string) returns (val: string)
      requires Valid() && Readable(files.Content())
      modifies this
      ensures Valid() && Model() == Ready(old(Model()), files.Content())
      ensures val == if Find(Model(), key).Some? then Find(Model(), key).value else defVal
    {
      var value := FindValue(key);
      val := if value.Some? then value.value else defVal;
    }

    method ReadInt(key: string, defVal: int32) returns (val: int32)
      requires Valid() && Readable(files.Content())
      modifies this
      ensures Valid() && Model() == Ready(old(Model()), files.Content())
      ensures val == DecodeInt(Find(Model(), key), defVal)
    {
      var value := FindValue(key);
      if value.Some? && |value.value| != 0 {
        return ToInt32(Numbers.Strtol(value.value, Numbers.Ten));
      }
      val := defVal;
    }

    method ReadBool(key: string, defVal: bool) returns (val: bool)
      requires Valid() && Readable(files.Content())
      modifies this
      ensures Valid() && Model() == Ready(old(Model()), files.Content())
      ensures val == DecodeBool(Find(Model(), key), defVal)
    {
      var value := FindValue(key);
      if value.Some? && |value.value| != 0 {
        var v := value.value;
        if v == "true" || v == "TRUE" || v == "True" || v == "1" { return true; }
        if v == "false" || v == "FALSE" || v == "False" || v == "0" { return false; }
      }
      val := defVal;
    }

    method ReadStringList(key: string, defVal: seq<string>) returns (val: seq<string>)
      requires Valid() && Readable(files.Content())
      modifies this
      ensures Valid() && Model() == Ready(old(Model()), files.Content())
      ensures val == DecodeStrings(Find(Model(), key), defVal)
    {
      var value := FindValue(key);
      val := defVal;
      if value.Some? && |value.value| != 0 {
        var strs, _ := SplitStringList(value.value, ',');
        val := strs;
      }
    }

    method ReadIntList(key: string, defVal: seq<int32>) returns (val: seq<int32>)
      requires Valid() && Readable(files.Content())
      modifies this
      ensures Valid() && Model() == Ready(old(Model()), files.Content())
      ensures val == DecodeInts(Find(Model(), key), defVal)
    {
      var value := FindValue(key);
      if value.None? || |value.value| == 0 { return defVal; }
      var strs, n := SplitStringList(value.value, ',');
      val := [];
      for i := 0 to n
        invariant |val| == i
        invariant forall k :: 0 <= k < i ==> val[k] == ToInt32(Numbers.Strtol(strs[k], Numbers.Ten))
      {
        val := val + [ToInt32(Numbers.Strtol(strs[i], Numbers.Ten))];
      }
    }

    method WriteString(key: string, val: string)
      requires Valid() && Readable(files.Content())
      modifies this
      ensures Valid() && Model() == Write(Ready(old(Model()), files.Content()), key, val)
    {
      Prepare();
      if initialized && |key| != 0 {
        usr := usr[key := val];
        updated := updated[key := Updated];
      }
    }

    method WriteInt(key: string, val: int32)
      requires Valid() && Readable(files.Content())
      modifies this
      ensures Valid() && Model() == Write(Ready(old(Model()), files.Content()), key, Numbers.Decimal(val))
    {
      WriteString(key, Numbers.Decimal(val));
    }

    method WriteBool(key: string, val: bool)
      requires Valid() && Readable(files.Content())
      modifies this
      ensures Valid() && Model() == Write(Ready(old(Model()), files.Content()), key, EncodeBool(val))
    {
      WriteString(key, if val then "true" else "false");
    }

    method WriteStringList(key: string, val: seq<string>)
      requires Valid() && Readable(files.Content())
      modifies this
      ensures Valid() && Model() == Write(Ready(old(Model()), files.Content()), key, Join(val, ','))
    {
      var text := CombineStringList(val, ',');
      WriteString(key, text);
    }

    method WriteIntList(key: string, val: seq<int32>)
      requires Valid() && Readable(files.Content())
      modifies this
      ensures Valid() && Model() == Write(Ready(old(Model()), files.Content()), key, EncodeInts(val))
    {
      var strvec: seq<string> := [];
      for i := 0 to |val|
        invariant strvec == Decimals(val[..i])
      {
        assert Decimals(val[..i + 1]) == Decimals(val[..i]) + [Numbers.Decimal(val[i])];
        strvec := strvec + [Numbers.Decimal(val[i])];
      }
      assert val[..|val|] == val;
      var text := CombineStringList(strvec, ',');
      WriteString(key, text);
    }

    method ResetKey(key: string)
      requires Valid() && Readable(files.Content())
      modifies this
      ensures Valid() && Model() == Reset(Ready(old(Model()), files.Content()), key)
    {
      Prepare();
      if initialized && |key| != 0 {
        usr := usr - {key};
        updated := updated[key := Erased];
      }
    }

    /** The loop of `flush` that puts the logged changes over what was read. */
    method ApplyLog(backup: map<string, string>)
      modifies this`usr
      ensures usr == Overlay(old(usr), updated, backup)
    {
      ghost var base := usr;
      ghost var done: map<string, Change> := map[];
      var todo := updated.Keys;
      while todo != {}
        invariant done.Keys + todo == updated.Keys && done.Keys !! todo
        invariant forall k :: k in done ==> done[k] == updated[k]
        invariant usr == Overlay(base, done, backup)
      {
        var k :| k in todo;
        todo := todo - {k};
        OverlayStep(base, done, backup, k, updated[k]);
        done := done[k := updated[k]];
        if updated[k].Updated? {
          usr := usr[k := AtOrEmpty(backup, k)];
        } else {
          usr := usr - {k};
        }
      }
      assert done == updated;
    }

    /** The loop of `flush` that writes the entries, in the order the container passes them. */
    method PrintEntries() returns (text: string)
      ensures IsPrintOf(text, usr)
    {
      text := [];
      ghost var order: seq<string> := [];
      var todo := usr.Keys;
      while todo != {}
        invariant Enumerates(order, usr.Keys - todo)
        invariant todo <= usr.Keys
        invariant text == Print(order, usr)
      {
        var k :| k in todo;
        todo := todo - {k};
        PrintSnoc(order, k, usr);
        DistinctExtend(order, k);
        order := order + [k];
        text := text + PrintLine(k, usr[k]) + ['\n'];
      }
    }

    method Flush() returns (ok: bool)
      requires Valid() && Readable(files.Content())
      modifies this, files`usrFile
      ensures Valid()
      ensures FlushResult(old(Model()), old(files.Content()), files.dirUsable, files.writable,
                          Model(), files.Content(), ok)
    {
      hide Parse, Print, Overlay, FitsBuffer;
      if !initialized { return false; }
      if |updated| == 0 { return true; }
      if !files.dirUsable { return false; }

      var backup := usr;
      InitializeConfig();
      ApplyLog(backup);
      LogStaysConsistent(old(Model()), old(files.Content()), [], []);

      if files.writable {
        var text := PrintEntries();
        files.usrFile := Some(text);
        updated := map[];
        return true;
      }
      return false;
    }
  }

  /** Where a line ends that has been scanned up to `pos`. */
  lemma {:induction false} StopsAt(text: string, from: nat, pos: nat)
    requires from <= pos <= |text| && forall i :: from <= i < pos ==> text[i] != '\n'
    ensures var n := FindNewline(text[from..]);
            if pos == |text| || text[pos] == '\n' then from + n == pos else pos < from + n <= |text|
  {
    var rest := text[from..];
    assert forall i :: 0 <= i < |rest| ==> rest[i] == text[from + i];
    assert forall i :: 0 <= i < pos - from ==> rest[i] != '\n';
    assert pos < |text| ==> rest[pos - from] == text[pos];
  }

  /** What was scanned is the line, wherever the scan stopped. */
  lemma {:induction false} TakenLine(text: string, s: Stream, pos: nat)
    requires s.pos <= pos <= |text| && !s.eof && !s.fail && pos - s.pos < BUFFER_SIZE
    requires forall i :: s.pos <= i < pos ==> text[i] != '\n'
    requires pos < |text| && text[pos] != '\n' ==> pos - s.pos == BUFFER_SIZE - 1
    ensures GetLine(text, s) ==
            (text[s.pos..pos],
             if pos == |text| then Stream(pos, true, pos == s.pos)
             else if text[pos] == '\n' then Stream(pos + 1, false, false) else Stream(pos, false, true))
  {
    hide FindNewline;
    StopsAt(text, s.pos, pos);
    assert pos == |text| ==> text[s.pos..] == text[s.pos..pos];
  }

  lemma NoPass(text: string)
    ensures Reading(text, 0) == Reader(Stream(0, false, false), map[])
  {
  }

  lemma PassGives(text: string, passes: nat)
    ensures Reading(text, passes + 1) == ReadPass(text, Reading(text, passes))
  {
  }

  lemma {:induction false} PrintSnoc(order: seq<string>, key: string, m: map<string, string>)
    requires key in m && forall k :: k in order ==> k in m
    ensures Print(order + [key], m) == Print(order, m) + PrintLine(key, m[key]) + ['\n']
  {
    if order == [] {
      assert [key][1..] == [];
      assert PrintLine(key, m[key]) + ['\n'] + [] == [] + PrintLine(key, m[key]) + ['\n'];
    } else {
      assert (order + [key])[1..] == order[1..] + [key];
      PrintSnoc(order[1..], key, m);
    }
  }
}
