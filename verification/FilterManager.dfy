/** The filters bound to IMEngines, kept in the configuration (src/scim_filter_manager.cpp:121-235). */
module FilterManager {
  import opened Common
  import opened ConfigBase
  import opened StringList

  const PREFIX: string := "/Filter/FilteredIMEngines/"
  const LIST: string := Path(PREFIX, "List")

  // ----- the filters of a list that are known, each once -----

  function Usable(filters: seq<string>, known: set<string>): seq<string> {
    if filters == [] then []
    else
      var before, last := Usable(filters[..|filters| - 1], known), filters[|filters| - 1];
      if last !in before && last in known then before + [last] else before
  }

  function FirstIndex(s: seq<string>, x: string): (i: nat)
    ensures i <= |s| && (i < |s| ==> s[i] == x) && (i == |s| ==> x !in s)
    ensures forall j :: 0 <= j < i ==> s[j] != x
  {
    if s == [] || s[0] == x then 0 else 1 + FirstIndex(s[1..], x)
  }

  lemma {:induction false} UsableAre(filters: seq<string>, known: set<string>)
    ensures Distinct(Usable(filters, known))
    ensures forall f :: f in Usable(filters, known) <==> f in filters && f in known
  {
    if filters == [] {
    } else {
      var front, last := filters[..|filters| - 1], filters[|filters| - 1];
      UsableAre(front, known);
      assert filters == front + [last];
      if last !in Usable(front, known) {
        DistinctExtend(Usable(front, known), last);
      }
    }
  }

  /** The usable filters are the known ones, each once, in the order of their first occurrences. */
  lemma {:induction false} UsableInOrder(filters: seq<string>, known: set<string>, i: nat, j: nat)
    requires i < j < |Usable(filters, known)|
    ensures FirstIndex(filters, Usable(filters, known)[i]) < FirstIndex(filters, Usable(filters, known)[j])
  {
    var front, last := filters[..|filters| - 1], filters[|filters| - 1];
    var before := Usable(front, known);
    assert filters == front + [last];
    UsableAre(front, known);
    if j < |before| {
      UsableInOrder(front, known, i, j);
      FirstIndexFront(front, last, before[i]);
      FirstIndexFront(front, last, before[j]);
    } else {
      FirstIndexFront(front, last, before[i]);
      assert FirstIndex(front, before[i]) < |front|;
      assert forall k :: 0 <= k < |front| ==> filters[k] == front[k];
      assert last in front ==> last in before;
    }
  }

  lemma {:induction false} FirstIndexFront(front: seq<string>, last: string, x: string)
    requires x in front
    ensures FirstIndex(front + [last], x) == FirstIndex(front, x)
  {
    var i, n := FirstIndex(front, x), FirstIndex(front + [last], x);
    assert (front + [last])[i] == x;
    assert n < |front| && front[n] == x;
  }

  lemma {:induction false} UsableOfUsable(fs: seq<string>, known: set<string>)
    requires Distinct(fs) && forall f :: f in fs ==> f in known
    ensures Usable(fs, known) == fs
  {
    if fs == [] {
    } else {
      var front, last := fs[..|fs| - 1], fs[|fs| - 1];
      assert fs == front + [last];
      assert forall i :: 0 <= i < |front| ==> fs[i] != last;
      UsableOfUsable(front, known);
    }
  }

  // ----- the operations on the configuration as a value -----

  function ListOf(cfg: map<string, string>): seq<string> {
    Split(Get(cfg, LIST, ""), ',')
  }

  function Remove(s: seq<string>, x: string): (r: seq<string>)
  {
    var i := FirstIndex(s, x);
    if i < |s| then s[..i] + s[i + 1..] else s
  }

  function SetFilters(cfg: map<string, string>, known: set<string>, uuid: string, filters: seq<string>)
    : map<string, string>
  {
    var valid, listed := Usable(filters, known), ListOf(cfg);
    if valid != [] then
      cfg[Path(PREFIX, uuid) := Join(valid, ',')][LIST := Join(if uuid in listed then listed else listed + [uuid], ',')]
    else
      (cfg - {Path(PREFIX, uuid)})[LIST := Join(Remove(listed, uuid), ',')]
  }

  function ClearFilters(cfg: map<string, string>): map<string, string> {
    cfg - Entries(ListOf(cfg)) - {LIST}
  }

  /** The configuration entries of some uuids. */
  function Entries(uuids: seq<string>): set<string> {
    set u | u in uuids :: Path(PREFIX, u)
  }

  lemma EntriesStep(uuids: seq<string>, i: nat)
    requires i < |uuids|
    ensures Entries(uuids[..i + 1]) == Entries(uuids[..i]) + {Path(PREFIX, uuids[i])}
  {
    assert uuids[..i + 1] == uuids[..i] + [uuids[i]];
  }

  lemma NoEntries(uuids: seq<string>)
    requires uuids == []
    ensures Entries(uuids) == {}
  {
  }

  function GetFilters(cfg: map<string, string>, known: set<string>, uuid: string): seq<string> {
    if uuid in ListOf(cfg) then Usable(Split(Get(cfg, Path(PREFIX, uuid), ""), ','), known) else []
  }

  // ----- the manager -----

  class FilterManager {
    const config: Config
    /** The uuids of the filters that the loaded modules offer. */
    const infos: seq<string>

    ghost function Known(): set<string> {
      set f | f in infos
    }

    constructor (config: Config, infos: seq<string>)
      ensures this.config == config && this.infos == infos
    {
      this.config, this.infos := config, infos;
    }

    method GetFilterInfo(uuid: string) returns (found: bool)
      ensures found <==> uuid in Known()
    {
      for i := 0 to |infos|
        invariant uuid !in infos[..i]
      {
        if infos[i] == uuid { return true; }
      }
      assert infos[..|infos|] == infos;
      found := false;
    }

    /** The loop that keeps the known filters of a list, each once. */
    method SelectFilters(filters: seq<string>) returns (valid: seq<string>)
      ensures valid == Usable(filters, Known())
    {
      valid := [];
      for i := 0 to |filters|
        invariant valid == Usable(filters[..i], Known())
      {
        assert filters[..i + 1][..i] == filters[..i];
        if filters[i] !in valid {
          var known := GetFilterInfo(filters[i]);
          if known {
            valid := valid + [filters[i]];
          }
        }
      }
      assert filters[..|filters|] == filters;
    }

    method SetFiltersForIMEngine(uuid: string, filters: seq<string>)
      modifies config`entries
      ensures config.entries ==
              if config.valid then SetFilters(old(config.entries), Known(), uuid, filters) else old(config.entries)
    {
      if !config.valid { return; }
      var validFilters := SelectFilters(filters);
      var str := config.Read(LIST, "");
      var filteredIms, n := SplitStringList(str, ',');

      if |validFilters| > 0 {
        if uuid !in filteredIms {
          filteredIms := filteredIms + [uuid];
        }
        var text := CombineStringList(validFilters, ',');
        config.Write(PREFIX + uuid, text);
      } else {
        var it := FirstIndex(filteredIms, uuid);
        if it != |filteredIms| {
          filteredIms := filteredIms[..it] + filteredIms[it + 1..];
        }
        config.Erase(PREFIX + uuid);
      }
      var list := CombineStringList(filteredIms, ',');
      config.Write(LIST, list);
    }

    method GetFiltersForIMEngine(uuid: string) returns (filters: seq<string>)
      ensures filters == if config.valid then GetFilters(config.entries, Known(), uuid) else []
    {
      filters := [];
      if config.valid {
        var str := config.Read(LIST, "");
        var tmp, n := SplitStringList(str, ',');
        if uuid in tmp {
          str := config.Read(PREFIX + uuid, "");
          tmp, n := SplitStringList(str, ',');
          filters := SelectFilters(tmp);
        }
      }
    }

    method ClearAllFilterSettings()
      modifies config`entries
      ensures config.entries == if config.valid then ClearFilters(old(config.entries)) else old(config.entries)
    {
      if config.valid {
        hide Path, Split, Entries;
        var str := config.Read(LIST, "");
        var tmp, n := SplitStringList(str, ',');
        assert Entries(tmp[..0]) == {} by {
          NoEntries(tmp[..0]);
        }
        for i := 0 to n
          invariant config.entries == old(config.entries) - Entries(tmp[..i])
        {
          EntriesStep(tmp, i);
          config.Erase(Path(PREFIX, tmp[i]));
        }
        assert tmp[..n] == tmp;
        config.Erase(LIST);
      }
    }

    method GetFilteredIMEngines() returns (imengines: seq<string>)
      ensures imengines == ListOf(config.entries)
    {
      var str := config.Read(LIST, "");
      var list, n := SplitStringList(str, ',');
      imengines := list;
    }
  }

  // ----- the configuration stands for a map from uuids to filter lists -----

  ghost predicate GoodUuid(u: string) {
    u != [] && ',' !in u && u != "List"
  }

  ghost predicate GoodFilters(known: set<string>) {
    forall f :: f in known ==> f != [] && ',' !in f
  }

  /** A list that could have been stored: known filters, each once, at least one. */
  ghost predicate Storable(fs: seq<string>, known: set<string>) {
    fs != [] && Distinct(fs) && forall f :: f in fs ==> f in known
  }

  ghost predicate Represents(cfg: map<string, string>, known: set<string>, bound: map<string, seq<string>>) {
    && Enumerates(ListOf(cfg), bound.Keys)
    && (forall u :: u in bound ==> GoodUuid(u) && Storable(bound[u], known))
    && (forall u :: GoodUuid(u) ==>
          Lookup(cfg, Path(PREFIX, u)) == if u in bound then Some(Join(bound[u], ',')) else None)
  }

  /** Binding a uuid to the usable filters of a list; without any the uuid is not bound. */
  function Rebind(bound: map<string, seq<string>>, known: set<string>, uuid: string, filters: seq<string>)
    : map<string, seq<string>>
  {
    if Usable(filters, known) != [] then bound[uuid := Usable(filters, known)] else bound - {uuid}
  }

  lemma StoredListReads(fs: seq<string>, known: set<string>)
    requires GoodFilters(known) && Storable(fs, known)
    ensures Usable(Split(Join(fs, ','), ','), known) == fs
  {
    assert fs[|fs| - 1] in fs;
    RoundTrip(fs, ',');
    UsableOfUsable(fs, known);
  }

  lemma ListReads(listed: seq<string>)
    requires forall u :: u in listed ==> GoodUuid(u)
    ensures Split(Join(listed, ','), ',') == listed
  {
    assert listed != [] ==> listed[|listed| - 1] in listed;
    RoundTrip(listed, ',');
  }

  lemma RemoveAre(s: seq<string>, x: string)
    requires Distinct(s)
    ensures Distinct(Remove(s, x)) && forall y :: y in Remove(s, x) <==> y in s && y != x
  {
  }

  /** The entry of each uuid after setting the filters of one. */
  lemma {:induction false} SetEntry(cfg: map<string, string>, known: set<string>, bound: map<string, seq<string>>,
                      uuid: string, filters: seq<string>, u: string)
    requires GoodUuid(uuid) && GoodUuid(u) && Represents(cfg, known, bound)
    ensures var bound' := Rebind(bound, known, uuid, filters);
            Lookup(SetFilters(cfg, known, uuid, filters), Path(PREFIX, u)) ==
            if u in bound' then Some(Join(bound'[u], ',')) else None
  {
    hide Split, Join, Usable, Path, Enumerates, Storable, ListOf, Remove;
    PathsDiffer(PREFIX, u, uuid);
    PathsDiffer(PREFIX, u, "List");
    PathsDiffer(PREFIX, uuid, "List");
  }

  /** The list entry after setting the filters of one uuid. */
  lemma {:induction false} SetList(cfg: map<string, string>, known: set<string>, bound: map<string, seq<string>>,
                      uuid: string, filters: seq<string>)
    requires GoodUuid(uuid) && Enumerates(ListOf(cfg), bound.Keys) && forall u :: u in bound ==> GoodUuid(u)
    ensures Enumerates(ListOf(SetFilters(cfg, known, uuid, filters)), Rebind(bound, known, uuid, filters).Keys)
  {
    hide Split, Join, Usable, Path, Remove, GoodUuid;
    var valid, listed := Usable(filters, known), ListOf(cfg);
    var listed' := if valid == [] then Remove(listed, uuid) else if uuid in listed then listed else listed + [uuid];
    RemoveAre(listed, uuid);
    if uuid !in listed {
      DistinctExtend(listed, uuid);
    }
    assert Enumerates(listed', Rebind(bound, known, uuid, filters).Keys);
    ListReads(listed');
  }

  lemma {:induction false} SetRepresents(cfg: map<string, string>, known: set<string>, bound: map<string, seq<string>>,
                      uuid: string, filters: seq<string>)
    requires GoodUuid(uuid) && Represents(cfg, known, bound)
    ensures Represents(SetFilters(cfg, known, uuid, filters), known, Rebind(bound, known, uuid, filters))
  {
    hide Split, Join, Usable, Path, Enumerates, ListOf, SetFilters;
    var cfg', bound' := SetFilters(cfg, known, uuid, filters), Rebind(bound, known, uuid, filters);
    UsableAre(filters, known);
    SetList(cfg, known, bound, uuid, filters);
    forall u | GoodUuid(u)
      ensures Lookup(cfg', Path(PREFIX, u)) == if u in bound' then Some(Join(bound'[u], ',')) else None
    {
      SetEntry(cfg, known, bound, uuid, filters, u);
    }
  }

  lemma ClearRepresents(cfg: map<string, string>, known: set<string>, bound: map<string, seq<string>>)
    requires Represents(cfg, known, bound)
    ensures Represents(ClearFilters(cfg), known, map[])
  {
  }

  lemma {:induction false} GetRepresents(cfg: map<string, string>, known: set<string>, bound: map<string,
      seq<string>>, uuid: string)
    requires GoodFilters(known) && GoodUuid(uuid) && Represents(cfg, known, bound)
    ensures GetFilters(cfg, known, uuid) == if uuid in bound then bound[uuid] else []
  {
    if uuid in bound {
      StoredListReads(bound[uuid], known);
    }
  }

  // ----- the entries by their names -----

  /** The filters of a uuid are the known ones of its entry, and none when the list does not name it. */
  lemma {:induction false} FiltersAreRead(cfg: map<string, string>, known: set<string>, uuid: string)
    ensures var listed := Split(Get(cfg, "/Filter/FilteredIMEngines/List", ""), ',');
            var stored := Split(Get(cfg, "/Filter/FilteredIMEngines/" + uuid, ""), ',');
            if uuid !in listed then GetFilters(cfg, known, uuid) == []
            else forall f :: f in GetFilters(cfg, known, uuid) <==> f in stored && f in known
  {
    hide Split, Usable;
    assert LIST == "/Filter/FilteredIMEngines/List";
    UsableAre(Split(Get(cfg, "/Filter/FilteredIMEngines/" + uuid, ""), ','), known);
  }

  /** A uuid bound for the first time is put behind the others; binding it again leaves the list as it
      is; a uuid that loses its filters is taken out. */
  lemma {:induction false} ListKeepsOrder(cfg: map<string, string>, known: set<string>, uuid: string,
      filters: seq<string>)
    requires GoodUuid(uuid) && Distinct(ListOf(cfg)) && forall u :: u in ListOf(cfg) ==> GoodUuid(u)
    ensures var listed, listed' := ListOf(cfg), ListOf(SetFilters(cfg, known, uuid, filters));
            if exists f :: f in filters && f in known
            then listed' == if uuid in listed then listed else listed + [uuid]
            else uuid !in listed' &&
                 (uuid !in listed ==> listed' == listed) &&
                 forall i :: 0 <= i < |listed| && listed[i] == uuid ==> listed' == listed[..i] + listed[i + 1..]
  {
    hide Split, Join, Usable, Path, GoodUuid;
    var listed := ListOf(cfg);
    UsableAre(filters, known);
    RemoveAre(listed, uuid);
    if valid :| valid in filters && valid in known {
      assert valid in Usable(filters, known);
      ListReads(if uuid in listed then listed else listed + [uuid]);
    } else {
      assert Usable(filters, known) != [] ==> Usable(filters, known)[0] in Usable(filters, known);
      ListReads(Remove(listed, uuid));
    }
  }

  // ----- runs of set and clear -----

  datatype Op = Set(uuid: string, filters: seq<string>) | Clear

  function Apply(cfg: map<string, string>, known: set<string>, op: Op): map<string, string> {
    match op
    case Set(uuid, filters) => SetFilters(cfg, known, uuid, filters)
    case Clear => ClearFilters(cfg)
  }

  function Run(known: set<string>, ops: seq<Op>): map<string, string>
    decreases |ops|
  {
    if ops == [] then map[] else Apply(Run(known, ops[..|ops| - 1]), known, ops[|ops| - 1])
  }

  /** The filters last set for a uuid since the last clear, told from the calls alone. */
  function LastSet(ops: seq<Op>, uuid: string): seq<string>
    decreases |ops|
  {
    if ops == [] then []
    else match ops[|ops| - 1]
      case Set(u, filters) => if u == uuid then filters else LastSet(ops[..|ops| - 1], uuid)
      case Clear => []
  }

  ghost predicate GoodOps(ops: seq<Op>) {
    forall op :: op in ops && op.Set? ==> GoodUuid(op.uuid)
  }

  /** The map that a run of calls stands for. */
  function Bound(known: set<string>, ops: seq<Op>): map<string, seq<string>>
    decreases |ops|
  {
    if ops == [] then map[]
    else match ops[|ops| - 1]
      case Set(u, filters) => Rebind(Bound(known, ops[..|ops| - 1]), known, u, filters)
      case Clear => map[]
  }

  lemma {:induction false} RunRepresents(known: set<string>, ops: seq<Op>)
    requires GoodOps(ops)
    ensures Represents(Run(known, ops), known, Bound(known, ops))
    decreases |ops|
  {
    if ops == [] {
    } else {
      hide Represents, SetFilters, ClearFilters, Rebind;
      var front, op := ops[..|ops| - 1], ops[|ops| - 1];
      RunRepresents(known, front);
      match op
      case Set(uuid, filters) => SetRepresents(Run(known, front), known, Bound(known, front), uuid, filters);
      case Clear => ClearRepresents(Run(known, front), known, Bound(known, front));
    }
  }

  lemma {:induction false} BoundIsLastSet(known: set<string>, ops: seq<Op>, uuid: string)
    ensures var last := Usable(LastSet(ops, uuid), known);
            Lookup(Bound(known, ops), uuid) == if last == [] then None else Some(last)
    decreases |ops|
  {
    if ops == [] {
    } else {
      BoundIsLastSet(known, ops[..|ops| - 1], uuid);
    }
  }

  /** After any calls of set and clear on an empty configuration, get returns for each uuid the known
      filters of the list last set for it, each once and in order; and the filtered IMEngines are the
      uuids with such a filter, each once. */
  lemma {:induction false} BindingsRefineMap(known: set<string>, ops: seq<Op>, uuid: string)
    requires GoodFilters(known) && GoodOps(ops) && GoodUuid(uuid)
    ensures GetFilters(Run(known, ops), known, uuid) == Usable(LastSet(ops, uuid), known)
    ensures uuid in ListOf(Run(known, ops)) <==> Usable(LastSet(ops, uuid), known) != []
    ensures Distinct(ListOf(Run(known, ops))) && forall u :: u in ListOf(Run(known, ops)) ==> GoodUuid(u)
  {
    RunRepresents(known, ops);
    BoundIsLastSet(known, ops, uuid);
    GetRepresents(Run(known, ops), known, Bound(known, ops), uuid);
  }

  /** No call touches an entry outside the filter settings. */
  lemma OtherEntriesStay(cfg: map<string, string>, known: set<string>, op: Op, key: string)
    requires !(PREFIX <= key)
    ensures Lookup(Apply(cfg, known, op), key) == Lookup(cfg, key)
  {
  }
}
