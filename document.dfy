/** The persisted shape of a vault, as the JSON library hands it over
    (`PasswordsDto` and `PasswordDto` in Classes/Passwords.cs), and the two
    conversions between it and the flat list: reading the groups back in
    document order, and grouping the list by service as `ToString` does.
    Last, how the writer escapes a string it puts between quotes. */
module VaultDocument {
  import opened Wrappers
  import opened Seqs

  /** The strings of one credential: service (`PasswordType`), username, password. */
  datatype Triple = Triple(service: string, username: string, password: string)

  /** `PasswordDto`; `Null` is an element of a list that the JSON text gives
      as `null`. */
  datatype Record = Record(username: string, password: string) | Null

  /** One key of the `passwords` dictionary with its list; `None` is a list the
      JSON text gives as `null`. */
  datatype Group = Group(service: string, records: Option<seq<Record>>)

  /** `PasswordsDto`; `passwords` is `None` when the JSON text has it `null`.
      The groups keep the dictionary's insertion order. */
  datatype Document = Document(mainPassword: string, passwords: Option<seq<Group>>)

  function RecordOf(t: Triple): Record {
    Record(t.username, t.password)
  }

  /** The triples of one group's records, up to the first `null` record:
      reading its `username` throws. */
  function GroupTriples(service: string, records: seq<Record>): seq<Triple> {
    if records == [] || records[0].Null? then []
    else [Triple(service, records[0].username, records[0].password)] + GroupTriples(service, records[1..])
  }

  predicate NoNullRecords(records: seq<Record>) {
    forall i :: 0 <= i < |records| ==> records[i].Record?
  }

  /** A group read to its end: neither its list nor any of its records is
      `null`. */
  predicate Readable(g: Group) {
    g.records.Some? && NoNullRecords(g.records.value)
  }

  /** The triples a reader of the document takes out of it, group by group and
      record by record. A `null` list makes the C# `foreach` throw, and so
      does a `null` record, so reading stops at the first of either. */
  function Entries(groups: seq<Group>): seq<Triple> {
    if groups == [] || groups[0].records.None? then []
    else GroupTriples(groups[0].service, groups[0].records.value) + (if Readable(groups[0]) then Entries(groups[1..]) else [])
  }

  predicate NoNullGroups(groups: seq<Group>) {
    forall i :: 0 <= i < |groups| ==> Readable(groups[i])
  }

  /** A non-null record gives its triple before the rest of the group. */
  lemma GroupTriplesStep(service: string, records: seq<Record>, i: nat)
    requires i < |records| && records[i].Record?
    ensures GroupTriples(service, records[i..])
         == [Triple(service, records[i].username, records[i].password)] + GroupTriples(service, records[i + 1..])
  {
    assert records[i..][0] == records[i] && records[i..][1..] == records[i + 1..];
  }

  /** From a `null` record on, a group gives nothing more. */
  lemma GroupTriplesNull(service: string, records: seq<Record>, i: nat)
    requires i < |records| && records[i].Null?
    ensures GroupTriples(service, records[i..]) == []
    ensures !NoNullRecords(records)
  {
    assert records[i..][0] == records[i];
  }

  /** A group's entries come first; the groups after it are read only when
      it holds no `null` record. */
  lemma EntriesCons(groups: seq<Group>, gi: nat)
    requires gi < |groups| && groups[gi].records.Some?
    ensures var records := groups[gi].records.value;
      Entries(groups[gi..])
      == GroupTriples(groups[gi].service, records) + (if NoNullRecords(records) then Entries(groups[gi + 1..]) else [])
  {
    assert groups[gi..][0] == groups[gi] && groups[gi..][1..] == groups[gi + 1..];
  }

  lemma {:induction false} GroupTriplesSnoc(service: string, records: seq<Record>, r: Record)
    requires NoNullRecords(records) && r.Record?
    ensures GroupTriples(service, records + [r]) == GroupTriples(service, records) + [Triple(service, r.username, r.password)]
  {
    if records != [] {
      assert (records + [r])[1..] == records[1..] + [r];
      GroupTriplesSnoc(service, records[1..], r);
    } else {
      assert [r][1..] == [];
    }
  }

  lemma {:induction false} EntriesAppend(a: seq<Group>, b: seq<Group>)
    requires NoNullGroups(a)
    ensures Entries(a + b) == Entries(a) + Entries(b)
  {
    if a == [] {
      assert a + b == b;
    } else {
      assert (a + b)[1..] == a[1..] + b;
      EntriesAppend(a[1..], b);
    }
  }

  /** The keys of the dictionary, in order. */
  function Services(groups: seq<Group>): seq<string> {
    seq(|groups|, i requires 0 <= i < |groups| => groups[i].service)
  }

  /** The service column of a list of triples. */
  function ServiceColumn(ts: seq<Triple>): seq<string> {
    seq(|ts|, i requires 0 <= i < |ts| => ts[i].service)
  }

  /** Where `passwordsByType[service]` lives, if `ContainsKey(service)`. */
  function KeyIndex(groups: seq<Group>, service: string): Option<nat> {
    IndexOf(Services(groups), service)
  }

  /** One turn of the loop in `ToString`: open a group at the end for a new
      service, then add the record to its service's group. */
  function AddToGroups(groups: seq<Group>, t: Triple): seq<Group> {
    match KeyIndex(groups, t.service)
    case None => groups + [Group(t.service, Some([RecordOf(t)]))]
    case Some(j) => groups[j := Group(t.service, Some(groups[j].records.GetOr([]) + [RecordOf(t)]))]
  }

  function GroupInto(groups: seq<Group>, ts: seq<Triple>): seq<Group>
    decreases |ts|
  {
    if ts == [] then groups else GroupInto(AddToGroups(groups, ts[0]), ts[1..])
  }

  /** The `passwords` dictionary `ToString` builds from the list's triples. */
  function Grouped(ts: seq<Triple>): seq<Group> {
    GroupInto([], ts)
  }

  /** The records of `ts` whose service is `k`, in list order. */
  function RecordsOf(ts: seq<Triple>, k: string): seq<Record> {
    if ts == [] then []
    else (if ts[0].service == k then [RecordOf(ts[0])] else []) + RecordsOf(ts[1..], k)
  }

  /** The records filed under `k`; none when `k` is not a key. */
  function RecordsFor(groups: seq<Group>, k: string): seq<Record> {
    match KeyIndex(groups, k)
    case None => []
    case Some(j) => groups[j].records.GetOr([])
  }

  lemma AddServices(groups: seq<Group>, t: Triple)
    ensures Services(AddToGroups(groups, t))
         == if t.service in Services(groups) then Services(groups) else Services(groups) + [t.service]
  {
  }

  lemma {:induction false} GroupIntoServices(groups: seq<Group>, ts: seq<Triple>)
    ensures Services(GroupInto(groups, ts)) == FirstSeen(Services(groups), ServiceColumn(ts))
    decreases |ts|
  {
    if ts != [] {
      AddServices(groups, ts[0]);
      assert ServiceColumn(ts)[1..] == ServiceColumn(ts[1..]);
      GroupIntoServices(AddToGroups(groups, ts[0]), ts[1..]);
    }
  }

  lemma AddNoNulls(groups: seq<Group>, t: Triple)
    requires NoNullGroups(groups)
    ensures NoNullGroups(AddToGroups(groups, t))
  {
  }

  lemma {:induction false} GroupIntoNoNulls(groups: seq<Group>, ts: seq<Triple>)
    requires NoNullGroups(groups)
    ensures NoNullGroups(GroupInto(groups, ts))
    decreases |ts|
  {
    if ts != [] {
      AddNoNulls(groups, ts[0]);
      GroupIntoNoNulls(AddToGroups(groups, ts[0]), ts[1..]);
    }
  }

  lemma AddRecords(groups: seq<Group>, t: Triple, k: string)
    ensures RecordsFor(AddToGroups(groups, t), k)
         == RecordsFor(groups, k) + (if t.service == k then [RecordOf(t)] else [])
  {
    var added := AddToGroups(groups, t);
    AddServices(groups, t);
    match KeyIndex(groups, t.service)
    case None =>
      if t.service == k {
        assert Services(added)[..|groups|] == Services(groups);
        assert KeyIndex(added, k) == Some(|groups|);
      } else {
        assert KeyIndex(added, k) == KeyIndex(groups, k) by {
          assert Services(added) == Services(groups) + [t.service];
          IndexOfExtend(Services(groups), [t.service], k);
        }
      }
    case Some(j) =>
      assert Services(added) == Services(groups);
  }

  lemma {:induction false} GroupIntoRecords(groups: seq<Group>, ts: seq<Triple>, k: string)
    ensures RecordsFor(GroupInto(groups, ts), k) == RecordsFor(groups, k) + RecordsOf(ts, k)
    decreases |ts|
  {
    if ts != [] {
      AddRecords(groups, ts[0], k);
      GroupIntoRecords(AddToGroups(groups, ts[0]), ts[1..], k);
    }
  }

  /** Every triple the groups hold, each list read to its end. */
  function Flatten(groups: seq<Group>): seq<Triple> {
    if groups == [] then []
    else GroupTriples(groups[0].service, groups[0].records.GetOr([])) + Flatten(groups[1..])
  }

  /** Without a null list or record, reading the document reads every group
      to its end. */
  lemma {:induction false} EntriesFlatten(groups: seq<Group>)
    requires NoNullGroups(groups)
    ensures Entries(groups) == Flatten(groups)
  {
    if groups != [] {
      assert Readable(groups[0]);
      EntriesFlatten(groups[1..]);
    }
  }

  lemma {:induction false} FlattenAppend(a: seq<Group>, b: seq<Group>)
    ensures Flatten(a + b) == Flatten(a) + Flatten(b)
  {
    if a == [] {
      assert a + b == b;
    } else {
      assert (a + b)[1..] == a[1..] + b;
      FlattenAppend(a[1..], b);
    }
  }

  lemma AddFlatten(groups: seq<Group>, t: Triple)
    requires NoNullGroups(groups)
    ensures multiset(Flatten(AddToGroups(groups, t))) == multiset(Flatten(groups)) + multiset{t}
  {
    match KeyIndex(groups, t.service)
    case None =>
      var g := Group(t.service, Some([RecordOf(t)]));
      FlattenAppend(groups, [g]);
      assert Flatten([g]) == [t] by {
        assert [g][1..] == [];
        assert [RecordOf(t)][1..] == [];
        assert GroupTriples(t.service, [RecordOf(t)]) == [t];
      }
    case Some(j) =>
      assert Readable(groups[j]);
      AddFlattenExisting(groups, t, j);
  }

  lemma {:induction false} AddFlattenExisting(groups: seq<Group>, t: Triple, j: nat)
    requires j < |groups| && groups[j].service == t.service
    requires NoNullRecords(groups[j].records.GetOr([]))
    ensures var g := Group(t.service, Some(groups[j].records.GetOr([]) + [RecordOf(t)]));
            multiset(Flatten(groups[j := g])) == multiset(Flatten(groups)) + multiset{t}
  {
    var recs := groups[j].records.GetOr([]);
    var g := Group(t.service, Some(recs + [RecordOf(t)]));
    var updated := groups[j := g];
    if j == 0 {
      assert updated[1..] == groups[1..];
      GroupTriplesSnoc(t.service, recs, RecordOf(t));
    } else {
      var tail := groups[1..];
      assert tail[j - 1] == groups[j];
      AddFlattenExisting(tail, t, j - 1);
      assert updated[1..] == tail[j - 1 := g];
    }
  }

  lemma {:induction false} GroupIntoFlatten(groups: seq<Group>, ts: seq<Triple>)
    requires NoNullGroups(groups)
    ensures multiset(Flatten(GroupInto(groups, ts))) == multiset(Flatten(groups)) + multiset(ts)
    decreases |ts|
  {
    if ts != [] {
      var t, rest := ts[0], ts[1..];
      var added := AddToGroups(groups, t);
      assert GroupInto(groups, ts) == GroupInto(added, rest);
      assert multiset(Flatten(GroupInto(added, rest))) == multiset(Flatten(added)) + multiset(rest) by {
        AddNoNulls(groups, t);
        GroupIntoFlatten(added, rest);
      }
      assert multiset(Flatten(added)) + multiset(rest) == multiset(Flatten(groups)) + multiset(ts) by {
        AddFlatten(groups, t);
        assert ts == [t] + rest;
      }
    }
  }

  /** Each turn of the grouping loop adds exactly its triple to what a reader
      takes out of the groups. */
  lemma GroupIntoEntries(groups: seq<Group>, ts: seq<Triple>)
    requires NoNullGroups(groups)
    ensures multiset(Entries(GroupInto(groups, ts))) == multiset(Entries(groups)) + multiset(ts)
  {
    GroupIntoNoNulls(groups, ts);
    EntriesFlatten(groups);
    EntriesFlatten(GroupInto(groups, ts));
    GroupIntoFlatten(groups, ts);
  }

  /** What `ToString` makes of the list: each service is a key once, the keys in
      the order the services first appear; every key's list holds that
      service's records in list order; no list is null. */
  lemma GroupedShape(ts: seq<Triple>)
    ensures Services(Grouped(ts)) == FirstSeen([], ServiceColumn(ts))
    ensures Distinct(Services(Grouped(ts)))
    ensures NoNullGroups(Grouped(ts))
    ensures forall j :: 0 <= j < |Grouped(ts)| ==>
              Grouped(ts)[j].records == Some(RecordsOf(ts, Grouped(ts)[j].service))
  {
    var g := Grouped(ts);
    GroupIntoServices([], ts);
    FirstSeenDistinct([], ServiceColumn(ts));
    GroupIntoNoNulls([], ts);
    forall j | 0 <= j < |g|
      ensures g[j].records == Some(RecordsOf(ts, g[j].service))
    {
      var k := g[j].service;
      GroupIntoRecords([], ts, k);
      assert Services(g)[j] == k;
      var i := KeyIndex(g, k).value;
      assert Services(g)[i] == k;
      assert i == j;
      assert RecordsFor(g, k) == RecordsOf(ts, k);
    }
  }

  /** Grouping and reading back: the groups `ToString` writes hold exactly the
      list's triples, each as often as it occurs in the list. */
  lemma GroupingRoundTrip(ts: seq<Triple>)
    ensures multiset(Entries(Grouped(ts))) == multiset(ts)
  {
    GroupIntoEntries([], ts);
  }

  // ---------------------------------------------------------------- what the JSON writer emits

  /** How System.Text.Json's default encoder writes one character inside a
      string: a backslash as `\\`, a quote as `\u0022`. */
  function EscapeChar(c: char): string {
    if c == '\\' then "\\\\"
    else if c == '"' then "\\u0022"
    else [c]
  }

  /** A string's content as the writer puts it between its quotes. */
  function JsonEscape(s: string): (r: string)
    ensures '"' !in r
    ensures |r| >= |s|
  {
    if s == [] then [] else EscapeChar(s[0]) + JsonEscape(s[1..])
  }

  /** The escaped content ends in a backslash exactly when the string does. */
  lemma {:induction false} JsonEscapeEnd(s: string)
    requires s != []
    ensures JsonEscape(s)[|JsonEscape(s)| - 1] == '\\' <==> s[|s| - 1] == '\\'
  {
    if |s| > 1 {
      JsonEscapeEnd(s[1..]);
      assert JsonEscape(s) == EscapeChar(s[0]) + JsonEscape(s[1..]);
      assert s[1..][|s| - 2] == s[|s| - 1];
    } else {
      assert JsonEscape(s) == EscapeChar(s[0]) + JsonEscape([]);
    }
  }
}
