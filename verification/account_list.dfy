/**
 * What each operation of the account manager does to the ordered list of accounts,
 * as functions of the list, and the properties those operations have.
 */
module AccountLists {
  import opened Results
  import opened Json
  import opened BambuAccounts

  /** Index of the first record whose id is `id` (the `find_if` by id), or none. */
  function IndexOf(s: seq<BambuAccount>, id: string): (r: Option<nat>)
    ensures r.Some? ==> r.value < |s| && s[r.value].userId == id
    ensures r.Some? ==> forall k :: 0 <= k < r.value ==> s[k].userId != id
    ensures r.None? <==> forall k :: 0 <= k < |s| ==> s[k].userId != id
  {
    if s == [] then None
    else if s[0].userId == id then Some(0)
    else match IndexOf(s[1..], id)
      case None => None
      case Some(i) => Some(i + 1)
  }

  /** Index of the first record flagged active, or none. */
  function IndexOfActive(s: seq<BambuAccount>): (r: Option<nat>)
    ensures r.Some? ==> r.value < |s| && s[r.value].isActive
    ensures r.Some? ==> forall k :: 0 <= k < r.value ==> !s[k].isActive
    ensures r.None? <==> forall k :: 0 <= k < |s| ==> !s[k].isActive
  {
    if s == [] then None
    else if s[0].isActive then Some(0)
    else match IndexOfActive(s[1..])
      case None => None
      case Some(i) => Some(i + 1)
  }

  /** The record at an index found in `s`, or none: what a returned pointer designates. */
  function At(s: seq<BambuAccount>, index: Option<nat>): Option<BambuAccount>
    requires index.Some? ==> index.value < |s|
  {
    match index
    case None => None
    case Some(i) => Some(s[i])
  }

  /**
   * `add_account`: a record with the same id is overwritten in place by the argument as given;
   * otherwise the argument is appended, active exactly when the list was empty.
   */
  function Added(s: seq<BambuAccount>, a: BambuAccount): seq<BambuAccount> {
    match IndexOf(s, a.userId)
    case Some(i) => s[i := a]
    case None => s + [a.(isActive := s == [])]
  }

  /**
   * `remove_account`: the first record with the id is erased; if it was active and records
   * remain, the first remaining one is flagged active.
   */
  function Removed(s: seq<BambuAccount>, id: string): seq<BambuAccount> {
    match IndexOf(s, id)
    case None => s
    case Some(i) =>
      var rest := Erase(s, i);
      if s[i].isActive && rest != [] then rest[0 := rest[0].(isActive := true)] else rest
  }

  /** The list without the record at `i` (`erase`). */
  function Erase(s: seq<BambuAccount>, i: nat): seq<BambuAccount>
    requires i < |s|
  {
    s[..i] + s[i + 1..]
  }

  /** The flag pass of `switch_account` and `update_active_account`: active exactly where the id matches. */
  function WithActive(s: seq<BambuAccount>, id: string): seq<BambuAccount> {
    seq(|s|, k requires 0 <= k < |s| => s[k].(isActive := s[k].userId == id))
  }

  /** The document `save_accounts` writes: an array with `to_json` of each record, in list order. */
  function Document(s: seq<BambuAccount>): JVal {
    JArray(seq(|s|, k requires 0 <= k < |s| => ToJson(s[k])))
  }

  /**
   * The records the load loop appends: `from_json` of each item in order, up to the first
   * item whose decoding throws.
   */
  function DecodeItems(items: seq<JVal>): seq<BambuAccount> {
    if items == [] then []
    else match FromJson(items[0])
      case Failure(_) => []
      case Success(a) => [a] + DecodeItems(items[1..])
  }

  /** What reading the configuration file gave `load_accounts`. */
  datatype ConfigFile =
    | Absent              // the file does not exist
    | OpenFailed          // it exists but cannot be opened
    | ParseFailed         // its text is not JSON
    | Parsed(doc: JVal)   // it parsed to this document

  /**
   * `load_accounts`: the list is kept when there is nothing to read; a parsed document first
   * clears it, then an array's items are decoded into it.
   */
  function Loaded(current: seq<BambuAccount>, file: ConfigFile): seq<BambuAccount> {
    match file
    case Parsed(doc) => if doc.JArray? then DecodeItems(doc.items) else []
    case _ => current
  }

  /** No two records share a `user_id`. */
  predicate UniqueIds(s: seq<BambuAccount>) {
    forall i, j :: 0 <= i < j < |s| ==> s[i].userId != s[j].userId
  }

  /** The record at `i` is the one and only active record. */
  predicate OnlyActiveAt(s: seq<BambuAccount>, i: int) {
    0 <= i < |s| && s[i].isActive && forall j :: 0 <= j < |s| && j != i ==> !s[j].isActive
  }

  /** The records at `p` and `q` are active and no other record is. */
  predicate TwoActiveAt(s: seq<BambuAccount>, p: int, q: int) {
    0 <= p < |s| && 0 <= q < |s| && p != q && s[p].isActive && s[q].isActive &&
    forall j :: 0 <= j < |s| && j != p && j != q ==> !s[j].isActive
  }

  /** The store's intended invariant: unique ids, and exactly one active record unless empty. */
  predicate Consistent(s: seq<BambuAccount>) {
    UniqueIds(s) && (s == [] || exists i :: 0 <= i < |s| && OnlyActiveAt(s, i))
  }

  // ---------------------------------------------------------------- add_account

  /** A new id is appended once at the end, forced active iff the list was empty; earlier records stay. */
  lemma AddNewAppends(s: seq<BambuAccount>, a: BambuAccount)
    requires IndexOf(s, a.userId).None?
    ensures |Added(s, a)| == |s| + 1 && Added(s, a)[..|s|] == s
    ensures Added(s, a)[|s|].isActive <==> s == []
    ensures Added(s, a)[|s|] == a.(isActive := Added(s, a)[|s|].isActive)
  {
  }

  /** A known id overwrites its first record with the argument verbatim; nothing else moves or changes. */
  lemma AddExistingReplaces(s: seq<BambuAccount>, a: BambuAccount, i: nat)
    requires IndexOf(s, a.userId) == Some(i)
    ensures |Added(s, a)| == |s| && Added(s, a)[i] == a
    ensures forall k :: 0 <= k < |s| && k != i ==> Added(s, a)[k] == s[k]
  {
  }

  /** Adding keeps the ids pairwise distinct. */
  lemma AddKeepsIdsUnique(s: seq<BambuAccount>, a: BambuAccount)
    requires UniqueIds(s)
    ensures UniqueIds(Added(s, a))
  {
    var r := Added(s, a);
    match IndexOf(s, a.userId)
    case Some(i) =>
      forall p, q | 0 <= p < q < |r| ensures r[p].userId != r[q].userId {
        assert r[p].userId == s[p].userId && r[q].userId == s[q].userId;
      }
    case None =>
      forall p, q | 0 <= p < q < |r| ensures r[p].userId != r[q].userId {
        if q == |s| {
          assert s[p].userId != a.userId;
        } else {
          assert r[p] == s[p] && r[q] == s[q];
        }
      }
  }

  /** Adding a new id keeps the invariant. */
  lemma AddNewKeepsConsistent(s: seq<BambuAccount>, a: BambuAccount)
    requires Consistent(s) && IndexOf(s, a.userId).None?
    ensures Consistent(Added(s, a))
  {
    AddKeepsIdsUnique(s, a);
    var r := Added(s, a);
    if s == [] {
      assert OnlyActiveAt(r, 0);
    } else {
      var i :| 0 <= i < |s| && OnlyActiveAt(s, i);
      assert r == s + [a.(isActive := false)];
      assert forall k :: 0 <= k < |s| ==> r[k] == s[k];
      assert OnlyActiveAt(r, i);
    }
  }

  /**
   * Overwriting a known id keeps the invariant exactly when the argument carries the same flag
   * as the record it replaces.
   */
  lemma AddExistingConsistentIff(s: seq<BambuAccount>, a: BambuAccount, i: nat)
    requires Consistent(s) && IndexOf(s, a.userId) == Some(i)
    ensures Consistent(Added(s, a)) <==> a.isActive == s[i].isActive
  {
    AddKeepsIdsUnique(s, a);
    var r := Added(s, a);
    var w :| 0 <= w < |s| && OnlyActiveAt(s, w);
    assert |r| == |s| && r[i] == a;
    assert forall k :: 0 <= k < |s| && k != i ==> r[k] == s[k];
    if a.isActive == s[i].isActive {
      assert forall k :: 0 <= k < |s| ==> r[k].isActive == s[k].isActive;
      assert OnlyActiveAt(r, w);
    } else if a.isActive {
      assert w != i && r[w].isActive && r[i].isActive;
      if z :| 0 <= z < |r| && OnlyActiveAt(r, z) {
        assert false;
      }
    } else {
      assert s[i].isActive;
      assert w == i;
      assert forall k :: 0 <= k < |r| ==> !r[k].isActive;
      if z :| 0 <= z < |r| && OnlyActiveAt(r, z) {
        assert false;
      }
    }
  }

  /**
   * When the flags differ, overwriting a known id in a consistent list leaves exactly two
   * active records (the argument and the old active one) or none at all.
   */
  lemma AddExistingFlagMismatch(s: seq<BambuAccount>, a: BambuAccount, i: nat)
    requires Consistent(s) && IndexOf(s, a.userId) == Some(i)
    ensures a.isActive && !s[i].isActive ==>
      exists w :: 0 <= w < |s| && TwoActiveAt(Added(s, a), i, w)
    ensures !a.isActive && s[i].isActive ==> IndexOfActive(Added(s, a)).None?
  {
    var r := Added(s, a);
    var w :| 0 <= w < |s| && OnlyActiveAt(s, w);
    assert |r| == |s| && r[i] == a;
    assert forall k :: 0 <= k < |s| && k != i ==> r[k] == s[k];
    if a.isActive && !s[i].isActive {
      assert TwoActiveAt(r, i, w);
    } else if !a.isActive && s[i].isActive {
      assert w == i;
      assert forall k :: 0 <= k < |r| ==> !r[k].isActive;
    }
  }

  // ---------------------------------------------------------------- remove_account

  /**
   * Removing an id that is present erases its first record; the others keep their order, and when
   * the erased record was active the new first record becomes active. An absent id changes nothing.
   */
  lemma RemoveErasesFirst(s: seq<BambuAccount>, id: string)
    ensures IndexOf(s, id).None? ==> Removed(s, id) == s
    ensures IndexOf(s, id).Some? ==>
      var i, r := IndexOf(s, id).value, Removed(s, id);
      |r| == |s| - 1 &&
      (forall k :: 0 < k < |r| ==> r[k] == s[if k < i then k else k + 1]) &&
      (r != [] ==> var first := s[if i == 0 then 1 else 0];
        r[0] == first.(isActive := s[i].isActive || first.isActive))
  {
    if IndexOf(s, id).Some? {
      var i := IndexOf(s, id).value;
      EraseShifts(s, i);
    }
  }

  /** Erasing the record at `i` shifts the later records down by one. */
  lemma EraseShifts(s: seq<BambuAccount>, i: nat)
    requires i < |s|
    ensures |Erase(s, i)| == |s| - 1
    ensures forall k :: 0 <= k < |s| - 1 ==> Erase(s, i)[k] == s[if k < i then k else k + 1]
  {
  }

  /** Erasing a record keeps the ids unique. */
  lemma EraseKeepsIdsUnique(s: seq<BambuAccount>, i: nat)
    requires i < |s| && UniqueIds(s)
    ensures UniqueIds(Erase(s, i))
  {
    var rest := Erase(s, i);
    EraseShifts(s, i);
    forall p, q | 0 <= p < q < |rest| ensures rest[p].userId != rest[q].userId {
      assert rest[p] == s[if p < i then p else p + 1];
      assert rest[q] == s[if q < i then q else q + 1];
    }
  }

  /** Removing keeps the invariant. */
  lemma RemoveKeepsConsistent(s: seq<BambuAccount>, id: string)
    requires Consistent(s)
    ensures Consistent(Removed(s, id))
  {
    match IndexOf(s, id)
    case None =>
    case Some(i) =>
      var rest := Erase(s, i);
      var r := Removed(s, id);
      EraseShifts(s, i);
      EraseKeepsIdsUnique(s, i);
      if rest != [] {
        var w :| 0 <= w < |s| && OnlyActiveAt(s, w);
        if s[i].isActive {
          assert w == i;
          assert r == rest[0 := rest[0].(isActive := true)];
          assert forall k :: 0 < k < |r| ==> r[k] == rest[k] && !r[k].isActive;
          assert OnlyActiveAt(r, 0);
        } else {
          var v := if w < i then w else w - 1;
          assert r == rest;
          assert rest[v] == s[w];
          assert OnlyActiveAt(r, v);
        }
        assert UniqueIds(r);
      }
  }

  // ---------------------------------------------------------------- switch_account / update_active_account

  /** The flag pass sets every flag to "id matches" and touches no other field. */
  lemma WithActiveSetsFlags(s: seq<BambuAccount>, id: string)
    ensures |WithActive(s, id)| == |s|
    ensures forall k :: 0 <= k < |s| ==> WithActive(s, id)[k].isActive == (s[k].userId == id)
    ensures forall k :: 0 <= k < |s| ==> WithActive(s, id)[k].(isActive := s[k].isActive) == s[k]
  {
  }

  /** With an id that is not present the flag pass leaves no record active. */
  lemma SwitchAbsentClearsFlags(s: seq<BambuAccount>, id: string)
    requires IndexOf(s, id).None?
    ensures IndexOfActive(WithActive(s, id)).None?
  {
  }

  /** With ids unique and the id present, the flag pass leaves that record the only active one. */
  lemma SwitchPresentKeepsConsistent(s: seq<BambuAccount>, id: string)
    requires UniqueIds(s) && IndexOf(s, id).Some?
    ensures OnlyActiveAt(WithActive(s, id), IndexOf(s, id).value)
    ensures Consistent(WithActive(s, id))
  {
    var r := WithActive(s, id);
    var i := IndexOf(s, id).value;
    assert forall k :: 0 <= k < |s| && k != i ==> !r[k].isActive;
    assert OnlyActiveAt(r, i);
    assert forall k :: 0 <= k < |s| ==> r[k].userId == s[k].userId;
  }

  // ---------------------------------------------------------------- save_accounts / load_accounts

  /**
   * The loaded records are the decoded leading items: each one is `from_json` of the item at
   * its position, and if some item is left over, it is the one whose decoding failed.
   */
  lemma {:induction false} DecodeItemsStopsAtFirstError(items: seq<JVal>)
    ensures |DecodeItems(items)| <= |items|
    ensures forall k :: 0 <= k < |DecodeItems(items)| ==> FromJson(items[k]) == Success(DecodeItems(items)[k])
    ensures |DecodeItems(items)| < |items| ==> FromJson(items[|DecodeItems(items)|]).Failure?
  {
    if items != [] && FromJson(items[0]).Success? {
      DecodeItemsStopsAtFirstError(items[1..]);
    }
  }

  /** One step of the load loop: the item at `i` either stops decoding or is followed by the rest. */
  lemma DecodeItemsAt(items: seq<JVal>, i: nat)
    requires i < |items|
    ensures FromJson(items[i]).Failure? ==> DecodeItems(items[i..]) == []
    ensures FromJson(items[i]).Success? ==>
      DecodeItems(items[i..]) == [FromJson(items[i]).value] + DecodeItems(items[i + 1..])
  {
    assert items[i..][0] == items[i];
    assert items[i..][1..] == items[i + 1..];
  }

  /** An array whose items all decode loads as the item-wise `from_json`. */
  lemma DecodeItemsAllSucceed(items: seq<JVal>)
    requires forall k :: 0 <= k < |items| ==> FromJson(items[k]).Success?
    ensures |DecodeItems(items)| == |items|
    ensures forall k :: 0 <= k < |items| ==> DecodeItems(items)[k] == FromJson(items[k]).value
  {
    DecodeItemsStopsAtFirstError(items);
  }

  /** Loading the document that saving writes gives back the saved list, whatever was in memory. */
  lemma {:induction false} LoadAfterSave(s: seq<BambuAccount>, current: seq<BambuAccount>)
    ensures Loaded(current, Parsed(Document(s))) == s
  {
    var items := Document(s).items;
    forall k | 0 <= k < |items| ensures FromJson(items[k]) == Success(s[k]) {
      RoundTrip(s[k]);
    }
    DecodeItemsAllSucceed(items);
  }
}
