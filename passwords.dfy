/** The in-memory vault of Classes/Passwords.cs: the hashed master password
    and the flat, ordered list of credential objects, with the operations the
    menu drives. */
module Vault {
  import opened Wrappers
  import opened Text
  import opened Seqs
  import opened VaultDocument
  import Hasher

  /** `PasswordData`: three strings fixed at construction. The class does not
      override `Equals`, so `List.Contains` and `List.Remove` compare these
      objects by reference. */
  class PasswordData {
    const passwordType: string
    const username: string
    const password: string

    constructor (passwordType: string, username: string, password: string)
      ensures this.passwordType == passwordType
      ensures this.username == username
      ensures this.password == password
    {
      this.passwordType := passwordType;
      this.username := username;
      this.password := password;
    }
  }

  function TripleOf(p: PasswordData): Triple {
    Triple(p.passwordType, p.username, p.password)
  }

  /** The strings a list of entries holds, entry by entry. */
  function Triples(s: seq<PasswordData>): seq<Triple> {
    seq(|s|, i requires 0 <= i < |s| => TripleOf(s[i]))
  }

  /** The triples that the constructor and `Sync` read from a parse result;
      `None` is text that does not parse, or parses to JSON `null`. */
  function DocumentEntries(input: Option<Document>): seq<Triple> {
    if input.Some? && input.value.passwords.Some? then Entries(input.value.passwords.value) else []
  }

  /** Loading what `ToString` wrote gives back the same entries, regrouped by
      service. */
  lemma LoadAfterSave(mainPassword: string, ts: seq<Triple>)
    ensures multiset(DocumentEntries(Some(Document(mainPassword, Some(Grouped(ts)))))) == multiset(ts)
  {
    GroupingRoundTrip(ts);
  }

  // ---------------------------------------------------------------- Find

  /** `string.IsNullOrEmpty`, with `None` for null. */
  predicate NullOrEmpty(s: Option<string>) {
    s.None? || s.value == []
  }

  /** The filter of `Find`: each criterion is either absent (null or empty) or
      a case-insensitive substring of the entry's field. */
  predicate Matches(p: PasswordData, passwordType: Option<string>, username: Option<string>) {
    && (NullOrEmpty(passwordType) || ContainsIgnoreCase(p.passwordType, passwordType.value))
    && (NullOrEmpty(username) || ContainsIgnoreCase(p.username, username.value))
  }

  /** The entries `Find` returns. */
  function Matching(s: seq<PasswordData>, passwordType: Option<string>, username: Option<string>): seq<PasswordData> {
    if s == [] then []
    else
      var rest := Matching(s[1..], passwordType, username);
      if Matches(s[0], passwordType, username) then [s[0]] + rest else rest
  }

  /** The entries `Find` returns keep their list order; with both criteria
      absent they are the whole list. */
  lemma {:induction false} MatchingKeepsOrder(s: seq<PasswordData>, passwordType: Option<string>, username: Option<string>)
    ensures IsSubsequence(Matching(s, passwordType, username), s)
    ensures NullOrEmpty(passwordType) && NullOrEmpty(username) ==> Matching(s, passwordType, username) == s
  {
    if s != [] {
      var rest := Matching(s[1..], passwordType, username);
      MatchingKeepsOrder(s[1..], passwordType, username);
      if Matches(s[0], passwordType, username) {
        assert ([s[0]] + rest)[1..] == rest;
        assert [s[0]] + s[1..] == s;
      } else {
        SubsequenceCons(rest, s[1..], s[0]);
        assert [s[0]] + s[1..] == s;
      }
    }
  }

  /** `Find` returns exactly the entries that pass the filter. */
  lemma {:induction false} MatchingMembers(s: seq<PasswordData>, passwordType: Option<string>, username: Option<string>)
    ensures forall i :: 0 <= i < |Matching(s, passwordType, username)| ==>
      Matching(s, passwordType, username)[i] in s && Matches(Matching(s, passwordType, username)[i], passwordType, username)
    ensures forall i :: 0 <= i < |s| && Matches(s[i], passwordType, username) ==> s[i] in Matching(s, passwordType, username)
  {
    if s != [] {
      MatchingMembers(s[1..], passwordType, username);
      assert forall i :: 0 <= i < |s| ==> i == 0 || s[i] in s[1..];
    }
  }

  lemma MatchingStep(s: seq<PasswordData>, i: nat, passwordType: Option<string>, username: Option<string>)
    requires i < |s|
    ensures Matching(s[i..], passwordType, username)
         == (if Matches(s[i], passwordType, username) then [s[i]] else []) + Matching(s[i + 1..], passwordType, username)
  {
    assert s[i..][0] == s[i] && s[i..][1..] == s[i + 1..];
  }

  /** The entries `Find` does not return. */
  function Unmatched(s: seq<PasswordData>, passwordType: Option<string>, username: Option<string>): seq<PasswordData> {
    if s == [] then []
    else
      var rest := Unmatched(s[1..], passwordType, username);
      if Matches(s[0], passwordType, username) then rest else [s[0]] + rest
  }

  /** The entries `Find` leaves out are list entries that fail the filter,
      and every list entry that fails it is among them. */
  lemma {:induction false} UnmatchedMembers(s: seq<PasswordData>, passwordType: Option<string>, username: Option<string>)
    ensures forall i :: 0 <= i < |Unmatched(s, passwordType, username)| ==>
      Unmatched(s, passwordType, username)[i] in s && !Matches(Unmatched(s, passwordType, username)[i], passwordType, username)
    ensures forall i :: 0 <= i < |s| && !Matches(s[i], passwordType, username) ==> s[i] in Unmatched(s, passwordType, username)
  {
    if s != [] {
      UnmatchedMembers(s[1..], passwordType, username);
      assert forall i :: 0 <= i < |s| ==> i == 0 || s[i] in s[1..];
    }
  }

  /** Leaving entries out of a list without repeats leaves a list without
      repeats. */
  lemma {:induction false} UnmatchedDistinct(s: seq<PasswordData>, passwordType: Option<string>, username: Option<string>)
    requires Distinct(s)
    ensures Distinct(Unmatched(s, passwordType, username))
  {
    if s != [] {
      var rest := Unmatched(s[1..], passwordType, username);
      UnmatchedDistinct(s[1..], passwordType, username);
      if !Matches(s[0], passwordType, username) {
        UnmatchedMembers(s[1..], passwordType, username);
        assert s[0] !in s[1..];
        var r := [s[0]] + rest;
        assert forall i :: 1 <= i < |r| ==> r[i] == rest[i - 1];
      }
    }
  }

  /** Every entry is either found or not, and is counted once. */
  lemma {:induction false} FindPartitions(s: seq<PasswordData>, passwordType: Option<string>, username: Option<string>)
    ensures multiset(Matching(s, passwordType, username)) + multiset(Unmatched(s, passwordType, username)) == multiset(s)
  {
    if s != [] {
      var found, left := Matching(s[1..], passwordType, username), Unmatched(s[1..], passwordType, username);
      FindPartitions(s[1..], passwordType, username);
      assert multiset(s) == multiset{s[0]} + multiset(s[1..]) by {
        assert s == [s[0]] + s[1..];
      }
      if Matches(s[0], passwordType, username) {
        assert Matching(s, passwordType, username) == [s[0]] + found;
        assert Unmatched(s, passwordType, username) == left;
      } else {
        assert Matching(s, passwordType, username) == found;
        assert Unmatched(s, passwordType, username) == [s[0]] + left;
      }
    }
  }

  /** `s` with its first `n` found entries taken out. */
  function DropMatches(s: seq<PasswordData>, passwordType: Option<string>, username: Option<string>, n: nat): seq<PasswordData> {
    if s == [] then []
    else if Matches(s[0], passwordType, username) then
      if n == 0 then s else DropMatches(s[1..], passwordType, username, n - 1)
    else [s[0]] + DropMatches(s[1..], passwordType, username, n)
  }

  lemma {:induction false} DropNone(s: seq<PasswordData>, passwordType: Option<string>, username: Option<string>)
    ensures DropMatches(s, passwordType, username, 0) == s
  {
    if s != [] && !Matches(s[0], passwordType, username) {
      DropNone(s[1..], passwordType, username);
      assert s == [s[0]] + s[1..];
    }
  }

  /** Removing the next found entry by reference takes out exactly that one:
      an object that is found cannot sit among the entries that are not. */
  lemma {:induction false} DropStep(s: seq<PasswordData>, passwordType: Option<string>, username: Option<string>, i: nat)
    requires i < |Matching(s, passwordType, username)|
    ensures RemoveFirst(DropMatches(s, passwordType, username, i), Matching(s, passwordType, username)[i])
         == DropMatches(s, passwordType, username, i + 1)
  {
    if Matches(s[0], passwordType, username) {
      if i > 0 {
        assert Matching(s, passwordType, username)[i] == Matching(s[1..], passwordType, username)[i - 1];
        DropStep(s[1..], passwordType, username, i - 1);
      } else {
        DropNone(s[1..], passwordType, username);
      }
    } else {
      assert Matching(s, passwordType, username) == Matching(s[1..], passwordType, username);
      DropStep(s[1..], passwordType, username, i);
      DropSkip(s, passwordType, username, i);
    }
  }

  /** The step past an entry that is not found: it stays in front. */
  lemma DropSkip(s: seq<PasswordData>, passwordType: Option<string>, username: Option<string>, i: nat)
    requires s != [] && !Matches(s[0], passwordType, username)
    requires i < |Matching(s[1..], passwordType, username)|
    requires RemoveFirst(DropMatches(s[1..], passwordType, username, i), Matching(s[1..], passwordType, username)[i])
          == DropMatches(s[1..], passwordType, username, i + 1)
    ensures RemoveFirst(DropMatches(s, passwordType, username, i), Matching(s[1..], passwordType, username)[i])
         == DropMatches(s, passwordType, username, i + 1)
  {
    var x := Matching(s[1..], passwordType, username)[i];
    MatchingMembers(s[1..], passwordType, username);
    assert x != s[0];
    var rest := DropMatches(s[1..], passwordType, username, i);
    assert ([s[0]] + rest)[1..] == rest;
  }

  lemma {:induction false} DropAll(s: seq<PasswordData>, passwordType: Option<string>, username: Option<string>)
    ensures DropMatches(s, passwordType, username, |Matching(s, passwordType, username)|)
         == Unmatched(s, passwordType, username)
  {
    if s != [] {
      DropAll(s[1..], passwordType, username);
    }
  }

  // ---------------------------------------------------------------- RemoveExactMatch

  /** The test of `RemoveExactMatch`: service and username equal, the password
      not looked at. */
  predicate ExactMatch(p: PasswordData, passwordType: string, username: string) {
    p.passwordType == passwordType && p.username == username
  }

  /** The first entry that `RemoveExactMatch` would take. */
  function ExactIndex(s: seq<PasswordData>, passwordType: string, username: string): (r: Option<nat>)
    ensures r.None? ==> forall j :: 0 <= j < |s| ==> !ExactMatch(s[j], passwordType, username)
    ensures r.Some? ==> r.value < |s| && ExactMatch(s[r.value], passwordType, username)
    ensures r.Some? ==> forall j :: 0 <= j < r.value ==> !ExactMatch(s[j], passwordType, username)
  {
    if s == [] then None
    else if ExactMatch(s[0], passwordType, username) then Some(0)
    else match ExactIndex(s[1..], passwordType, username)
      case None => None
      case Some(k) => Some(k + 1)
  }

  // ---------------------------------------------------------------- Sync

  /** `Sync`'s merge: take the incoming triples in order and append each one
      that the list does not hold yet, by value. */
  function Merge(s: seq<Triple>, incoming: seq<Triple>): (r: seq<Triple>)
    ensures s <= r
    ensures |r| <= |s| + |incoming|
    decreases |incoming|
  {
    if incoming == [] then s
    else
      var t := incoming[0];
      Merge(if t in s then s else s + [t], incoming[1..])
  }

  /** One incoming triple, then the rest. */
  lemma MergeStep(s: seq<Triple>, t: Triple, rest: seq<Triple>)
    ensures Merge(s, [t] + rest) == Merge(if t in s then s else s + [t], rest)
  {
    assert ([t] + rest)[0] == t && ([t] + rest)[1..] == rest;
  }

  /** After a merge the list holds every incoming triple, and what was
      appended is incoming, new, and free of repeats. */
  lemma {:induction false} MergeContents(s: seq<Triple>, incoming: seq<Triple>)
    ensures forall i :: 0 <= i < |incoming| ==> incoming[i] in Merge(s, incoming)
    ensures forall i :: |s| <= i < |Merge(s, incoming)| ==> Merge(s, incoming)[i] in incoming && Merge(s, incoming)[i] !in s
    ensures forall i, j :: |s| <= i < j < |Merge(s, incoming)| ==> Merge(s, incoming)[i] != Merge(s, incoming)[j]
    decreases |incoming|
  {
    if incoming != [] {
      var t := incoming[0];
      var s' := if t in s then s else s + [t];
      var r := Merge(s', incoming[1..]);
      MergeContents(s', incoming[1..]);
      assert forall i :: 0 <= i < |incoming| ==> i == 0 || incoming[i] in incoming[1..];
      assert t in s' && s' <= r;
    }
  }

  /** The appended triples come in the order of the incoming ones. */
  lemma {:induction false} MergeKeepsOrder(s: seq<Triple>, incoming: seq<Triple>)
    ensures IsSubsequence(Merge(s, incoming)[|s|..], incoming)
    decreases |incoming|
  {
    if incoming != [] {
      var t := incoming[0];
      var s' := if t in s then s else s + [t];
      var r := Merge(s', incoming[1..]);
      MergeKeepsOrder(s', incoming[1..]);
      assert [t] + incoming[1..] == incoming;
      if t in s {
        SubsequenceCons(r[|s|..], incoming[1..], t);
      } else {
        assert r[|s|..][0] == t && r[|s|..][1..] == r[|s'|..];
      }
    }
  }

  /** Merging two pieces one after the other is merging their concatenation. */
  lemma {:induction false} MergeAppend(s: seq<Triple>, a: seq<Triple>, b: seq<Triple>)
    ensures Merge(s, a + b) == Merge(Merge(s, a), b)
    decreases |a|
  {
    if a == [] {
      assert a + b == b;
    } else {
      var t := a[0];
      assert (a + b)[0] == t && (a + b)[1..] == a[1..] + b;
      MergeAppend(if t in s then s else s + [t], a[1..], b);
    }
  }

  lemma {:induction false} MergeKnown(s: seq<Triple>, incoming: seq<Triple>)
    requires forall i :: 0 <= i < |incoming| ==> incoming[i] in s
    ensures Merge(s, incoming) == s
    decreases |incoming|
  {
    if incoming != [] {
      MergeKnown(s, incoming[1..]);
    }
  }

  /** Syncing the same document twice is the same as syncing it once. */
  lemma SyncIdempotent(s: seq<Triple>, incoming: seq<Triple>)
    ensures Merge(Merge(s, incoming), incoming) == Merge(s, incoming)
  {
    MergeContents(s, incoming);
    MergeKnown(Merge(s, incoming), incoming);
  }

  /** The linear scan inside `Sync`: does the list hold an entry with these
      three strings? */
  method Contains(list: seq<PasswordData>, t: Triple) returns (found: bool)
    ensures found <==> t in Triples(list)
  {
    found := false;
    var k := 0;
    while k < |list|
      invariant 0 <= k <= |list|
      invariant found <==> t in Triples(list[..k])
    {
      var existing := list[k];
      assert Triples(list[..k + 1]) == Triples(list[..k]) + [TripleOf(existing)];
      if existing.passwordType == t.service && existing.username == t.username && existing.password == t.password {
        found := true;
        assert Triples(list)[k] == t;
        return;
      }
      k := k + 1;
    }
    assert list[..k] == list;
  }

  lemma TriplesSnoc(s: seq<PasswordData>, p: PasswordData)
    ensures Triples(s + [p]) == Triples(s) + [TripleOf(p)]
  {
  }

  /** One record of `Sync`'s inner loop: a new entry unless an equal one is
      already there. */
  method SyncOne(r: seq<PasswordData>, t: Triple) returns (r2: seq<PasswordData>)
    ensures Triples(r2) == if t in Triples(r) then Triples(r) else Triples(r) + [t]
    ensures r <= r2
    ensures Distinct(r) ==> Distinct(r2)
    ensures forall k :: |r| <= k < |r2| ==> fresh(r2[k])
  {
    var found := Contains(r, t);
    r2 := r;
    if !found {
      var entry := new PasswordData(t.service, t.username, t.password);
      TriplesSnoc(r, entry);
      if Distinct(r) {
        DistinctSnoc(r, entry);
      }
      r2 := r + [entry];
    }
  }

  /** The inner loop of `Sync`: one group's records, each appended as a new
      entry unless an equal one is already there. A `null` record throws,
      which `completed` reports. */
  method SyncRecords(list: seq<PasswordData>, service: string, records: seq<Record>)
    returns (r: seq<PasswordData>, completed: bool)
    ensures Triples(r) == Merge(Triples(list), GroupTriples(service, records))
    ensures completed <==> NoNullRecords(records)
    ensures list <= r
    ensures Distinct(list) ==> Distinct(r)
    ensures forall k :: |list| <= k < |r| ==> fresh(r[k])
  {
    r := list;
    ghost var target := Merge(Triples(list), GroupTriples(service, records));
    assert records[0..] == records;
    var ri := 0;
    while ri < |records|
      invariant 0 <= ri <= |records|
      invariant Merge(Triples(r), GroupTriples(service, records[ri..])) == target
      invariant forall k :: 0 <= k < ri ==> records[k].Record?
      invariant list <= r
      invariant Distinct(list) ==> Distinct(r)
      invariant forall k :: |list| <= k < |r| ==> fresh(r[k])
    {
      var p := records[ri];
      if p.Null? {
        // `p.username` throws, at line 108 when an entry of this service is
        // listed and at line 115 otherwise, before anything is appended.
        GroupTriplesNull(service, records, ri);
        return r, false;
      }
      var t := Triple(service, p.username, p.password);
      GroupTriplesStep(service, records, ri);
      MergeStep(Triples(r), t, GroupTriples(service, records[ri + 1..]));
      r := SyncOne(r, t);
      ri := ri + 1;
    }
    assert GroupTriples(service, records[ri..]) == [];
    completed := true;
  }

  /** The outer loop of `Sync`, over the groups of the parsed document. A
      group whose record list is null ends the loop: the `foreach` over it
      throws, and the catch-all keeps what was appended before. A null record
      ends it in the same way. */
  method SyncGroups(list: seq<PasswordData>, groups: seq<Group>) returns (r: seq<PasswordData>)
    ensures Triples(r) == Merge(Triples(list), Entries(groups))
    ensures list <= r
    ensures Distinct(list) ==> Distinct(r)
    ensures forall k :: |list| <= k < |r| ==> fresh(r[k])
  {
    r := list;
    ghost var target := Merge(Triples(list), Entries(groups));
    assert groups[0..] == groups;
    var gi := 0;
    while gi < |groups|
      invariant 0 <= gi <= |groups|
      invariant Merge(Triples(r), Entries(groups[gi..])) == target
      invariant list <= r
      invariant Distinct(list) ==> Distinct(r)
      invariant forall k :: |list| <= k < |r| ==> fresh(r[k])
    {
      var more;
      r, more := SyncGroup(r, groups, gi);
      if !more {
        return;
      }
      gi := gi + 1;
    }
  }

  /** One turn of `Sync`'s outer loop: the group's records merged into the
      list. `more` is false when the group's list, or one of its records, is
      null, which throws. */
  method SyncGroup(r: seq<PasswordData>, groups: seq<Group>, gi: nat) returns (r2: seq<PasswordData>, more: bool)
    requires gi < |groups|
    ensures more ==> Merge(Triples(r2), Entries(groups[gi + 1..])) == Merge(Triples(r), Entries(groups[gi..]))
    ensures !more ==> Triples(r2) == Merge(Triples(r), Entries(groups[gi..]))
    ensures r <= r2
    ensures Distinct(r) ==> Distinct(r2)
    ensures forall k :: |r| <= k < |r2| ==> fresh(r2[k])
  {
    var group := groups[gi];
    if group.records.None? {
      assert Entries(groups[gi..]) == [];
      return r, false;
    }
    var records := group.records.value;
    EntriesCons(groups, gi);
    r2, more := SyncRecords(r, group.service, records);
    if more {
      MergeAppend(Triples(r), GroupTriples(group.service, records), Entries(groups[gi + 1..]));
    } else {
      assert GroupTriples(group.service, records) + [] == GroupTriples(group.service, records);
    }
  }

  /** The inner loop of the constructor: one new entry per record, in order,
      up to a `null` record, whose `username` throws. */
  method ReadRecords(list: seq<PasswordData>, service: string, records: seq<Record>)
    returns (r: seq<PasswordData>, completed: bool)
    ensures Triples(r) == Triples(list) + GroupTriples(service, records)
    ensures completed <==> NoNullRecords(records)
    ensures list <= r
    ensures Distinct(list) ==> Distinct(r)
    ensures forall k :: |list| <= k < |r| ==> fresh(r[k])
  {
    r := list;
    var ri := 0;
    while ri < |records|
      invariant 0 <= ri <= |records|
      invariant Triples(r) + GroupTriples(service, records[ri..]) == Triples(list) + GroupTriples(service, records)
      invariant forall k :: 0 <= k < ri ==> records[k].Record?
      invariant list <= r
      invariant Distinct(list) ==> Distinct(r)
      invariant forall k :: |list| <= k < |r| ==> fresh(r[k])
    {
      var p := records[ri];
      if p.Null? {
        GroupTriplesNull(service, records, ri);
        assert Triples(r) + [] == Triples(r);
        return r, false;
      }
      var entry := new PasswordData(service, p.username, p.password);
      GroupTriplesStep(service, records, ri);
      TriplesSnoc(r, entry);
      if Distinct(list) {
        DistinctSnoc(r, entry);
      }
      r := r + [entry];
      ri := ri + 1;
    }
    assert records[ri..] == [];
    completed := true;
  }

  /** The outer loop of the constructor, over the groups of the parsed
      document. The `foreach` over a null list throws, and so does a null
      record; the catch-all keeps what was read before. */
  method ReadGroups(groups: seq<Group>) returns (list: seq<PasswordData>)
    ensures Triples(list) == Entries(groups)
    ensures Distinct(list)
    ensures forall k :: 0 <= k < |list| ==> fresh(list[k])
  {
    list := [];
    var gi := 0;
    assert groups[0..] == groups;
    while gi < |groups|
      invariant 0 <= gi <= |groups|
      invariant Triples(list) + Entries(groups[gi..]) == Entries(groups)
      invariant Distinct(list)
      invariant forall k :: 0 <= k < |list| ==> fresh(list[k])
    {
      var group := groups[gi];
      if group.records.None? {
        assert Entries(groups[gi..]) == [];
        break;
      }
      var records := group.records.value;
      EntriesCons(groups, gi);
      ghost var before := Triples(list);
      var completed;
      list, completed := ReadRecords(list, group.service, records);
      if !completed {
        assert Triples(list) + [] == Triples(list);
        return;
      }
      AppendAssoc(before, GroupTriples(group.service, records), Entries(groups[gi + 1..]));
      gi := gi + 1;
    }
  }

  /** One step of `ToString`'s loop: the entry's record goes to the end of
      its service's group, which is added at the end when it is new. */
  method GroupOne(groups: seq<Group>, p: PasswordData) returns (r: seq<Group>)
    ensures r == AddToGroups(groups, TripleOf(p))
  {
    r := groups;
    if KeyIndex(r, p.passwordType).None? {
      r := r + [Group(p.passwordType, Some([]))];
      assert Services(r)[..|groups|] == Services(groups);
      assert Services(r)[|groups|] == p.passwordType;
    }
    var j := KeyIndex(r, p.passwordType).value;
    assert KeyIndex(groups, p.passwordType).None? ==> j == |groups|;
    var records := r[j].records.GetOr([]);
    r := r[j := Group(p.passwordType, Some(records + [Record(p.username, p.password)]))];
    if KeyIndex(groups, p.passwordType).None? {
      assert records + [Record(p.username, p.password)] == [RecordOf(TripleOf(p))];
      assert r == groups + [Group(p.passwordType, Some([RecordOf(TripleOf(p))]))];
    }
  }

  // ---------------------------------------------------------------- the vault

  /** `Passwords`. */
  class Passwords {
    var mainPassword: string
    var passwordsList: seq<PasswordData>

    /** No entry object is in the list twice. Every operation keeps this. */
    ghost predicate Unique()
      reads this
    {
      Distinct(passwordsList)
    }

    /** `new Passwords()`. */
    constructor ()
      ensures mainPassword == [] && passwordsList == []
    {
      mainPassword := [];
      passwordsList := [];
    }

    /** `new Passwords(input)`: the master-password hash and the flattened
        groups of the parsed text; empty for text that does not parse. */
    constructor FromDocument(input: Option<Document>)
      ensures mainPassword == if input.Some? then input.value.mainPassword else []
      ensures Triples(passwordsList) == DocumentEntries(input)
      ensures Unique()
      ensures forall k :: 0 <= k < |passwordsList| ==> fresh(passwordsList[k])
    {
      var list: seq<PasswordData> := [];
      var main: string := [];
      if input.Some? {
        main := input.value.mainPassword;
        if input.value.passwords.Some? {
          list := ReadGroups(input.value.passwords.value);
        }
      }
      mainPassword := main;
      passwordsList := list;
    }

    /** `ToString`, up to the JSON text: the document with the entries grouped
        by service. */
    method ToDocument() returns (d: Document)
      ensures d == Document(mainPassword, Some(Grouped(Triples(passwordsList))))
    {
      var passwordsByType: seq<Group> := [];
      var i := 0;
      while i < |passwordsList|
        invariant 0 <= i <= |passwordsList|
        invariant GroupInto(passwordsByType, Triples(passwordsList[i..])) == Grouped(Triples(passwordsList))
      {
        var p := passwordsList[i];
        assert Triples(passwordsList[i..]) == [TripleOf(p)] + Triples(passwordsList[i + 1..]);
        passwordsByType := GroupOne(passwordsByType, p);
        assert GroupInto(passwordsByType, Triples(passwordsList[i + 1..])) == Grouped(Triples(passwordsList));
        i := i + 1;
      }
      d := Document(mainPassword, Some(passwordsByType));
    }

    /** `Append`: adds the object at the end unless that very object is already
        in the list. */
    method Append(password: PasswordData)
      modifies this
      ensures passwordsList == if password in old(passwordsList) then old(passwordsList) else old(passwordsList) + [password]
      ensures mainPassword == old(mainPassword)
      ensures old(Unique()) ==> Unique()
    {
      if password in passwordsList {
        return;
      }
      passwordsList := passwordsList + [password];
    }

    /** `RemoveExactMatch`: removes the first entry with this service and
        username, whatever its password. */
    method RemoveExactMatch(passwordType: string, username: string)
      modifies this
      ensures passwordsList == match ExactIndex(old(passwordsList), passwordType, username)
                               case None => old(passwordsList)
                               case Some(k) => old(passwordsList)[..k] + old(passwordsList)[k + 1..]
      ensures mainPassword == old(mainPassword)
      ensures old(Unique()) ==> Unique()
    {
      var i := 0;
      while i < |passwordsList|
        invariant 0 <= i <= |passwordsList|
        invariant passwordsList == old(passwordsList)
        invariant forall j :: 0 <= j < i ==> !ExactMatch(passwordsList[j], passwordType, username)
      {
        var item := passwordsList[i];
        if item.passwordType == passwordType && item.username == username {
          // The first occurrence of this object is here: an earlier one would have matched.
          RemoveFirstAt(passwordsList, i);
          passwordsList := RemoveFirst(passwordsList, item);
          return;
        }
        i := i + 1;
      }
    }

    /** `Remove(PasswordData)`: `List.Remove`, the first occurrence of that
        object. */
    method Remove(password: PasswordData)
      modifies this
      ensures passwordsList == RemoveFirst(old(passwordsList), password)
      ensures mainPassword == old(mainPassword)
      ensures old(Unique()) ==> Unique() && password !in passwordsList
    {
      if Unique() {
        RemoveFirstDistinct(passwordsList, password);
      }
      passwordsList := RemoveFirst(passwordsList, password);
    }

    /** `Remove(type, username)`: removes, one by one, every entry that `Find`
        returns for these criteria. */
    method RemoveMatching(passwordType: string, username: string)
      modifies this
      ensures passwordsList == Unmatched(old(passwordsList), Some(passwordType), Some(username))
      ensures mainPassword == old(mainPassword)
      ensures old(Unique()) ==> Unique()
    {
      var found := Find(Some(passwordType), Some(username));
      ghost var original := passwordsList;
      DropNone(original, Some(passwordType), Some(username));
      var i := 0;
      while i < |found|
        invariant 0 <= i <= |found|
        invariant passwordsList == DropMatches(original, Some(passwordType), Some(username), i)
        invariant mainPassword == old(mainPassword)
      {
        DropStep(original, Some(passwordType), Some(username), i);
        Remove(found[i]);
        i := i + 1;
      }
      DropAll(original, Some(passwordType), Some(username));
      if Distinct(original) {
        UnmatchedDistinct(original, Some(passwordType), Some(username));
      }
    }

    /** `Find`: the entries, in list order, that pass both criteria. */
    method Find(passwordType: Option<string>, username: Option<string>) returns (result: seq<PasswordData>)
      ensures result == Matching(passwordsList, passwordType, username)
    {
      var list := passwordsList;
      result := [];
      var i := 0;
      while i < |list|
        invariant 0 <= i <= |list|
        invariant result + Matching(list[i..], passwordType, username) == Matching(list, passwordType, username)
      {
        var item := list[i];
        var typeMatch := NullOrEmpty(passwordType) || ContainsIgnoreCase(item.passwordType, passwordType.value);
        var usernameMatch := NullOrEmpty(username) || ContainsIgnoreCase(item.username, username.value);
        MatchingStep(list, i, passwordType, username);
        ghost var rest := Matching(list[i + 1..], passwordType, username);
        if typeMatch && usernameMatch {
          AppendAssoc(result, [item], rest);
          result := result + [item];
        }
        assert result + rest == Matching(list, passwordType, username);
        i := i + 1;
      }
      assert list[i..] == [];
    }

    /** `GetByType`: `Find` on the service alone. */
    method GetByType(passwordType: string) returns (result: seq<PasswordData>)
      ensures result == Matching(passwordsList, Some(passwordType), None)
    {
      result := Find(Some(passwordType), None);
    }

    /** `GetByUsername`: `Find` on the username alone. */
    method GetByUsername(username: string) returns (result: seq<PasswordData>)
      ensures result == Matching(passwordsList, None, Some(username))
    {
      result := Find(None, Some(username));
    }

    /** `Sync`: appends, in document order, each triple of the parsed document
        that the list does not hold by value, including one appended earlier in
        the same call. */
    method Sync(input: Option<Document>)
      modifies this
      ensures Triples(passwordsList) == Merge(Triples(old(passwordsList)), DocumentEntries(input))
      ensures old(passwordsList) <= passwordsList
      ensures forall k :: |old(passwordsList)| <= k < |passwordsList| ==> fresh(passwordsList[k])
      ensures mainPassword == old(mainPassword)
      ensures old(Unique()) ==> Unique()
    {
      if input.None? || input.value.passwords.None? {
        return;
      }
      passwordsList := SyncGroups(passwordsList, input.value.passwords.value);
    }

    /** `ChangeMainPassword`: stores a fresh hash of the new password and
        leaves the entries alone. */
    method ChangeMainPassword(p: Hasher.Primitives, password: string, salt: Hasher.Salt)
      modifies this
      ensures mainPassword == Hasher.StoredHash(p, password, salt)
      ensures passwordsList == old(passwordsList)
      ensures Hasher.CodecSound(p) && !IsBlank(password) ==> Hasher.Verified(p, password, mainPassword)
    {
      mainPassword := Hasher.Get(p, password, salt);
      if Hasher.CodecSound(p) && !IsBlank(password) {
        Hasher.GetThenVerify(p, password, salt);
      }
    }

    /** `CheckMainPassword`: open when no master password is set, otherwise
        `Hasher.Verify`. */
    method CheckMainPassword(p: Hasher.Primitives, password: string) returns (r: bool)
      ensures r == (mainPassword == [] || Hasher.Verified(p, password, mainPassword))
    {
      if mainPassword == [] {
        return true;
      }
      r := Hasher.Verify(p, password, mainPassword);
    }

    /** `Clear`: the reset path; a fresh hash of the new password and no
        entries. */
    method Clear(p: Hasher.Primitives, password: string, salt: Hasher.Salt)
      modifies this
      ensures mainPassword == Hasher.StoredHash(p, password, salt)
      ensures passwordsList == []
    {
      mainPassword := Hasher.Get(p, password, salt);
      passwordsList := [];
    }
  }
}
