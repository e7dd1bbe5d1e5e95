/** The catalog set as an object: its map of chains and its identifier counter are updated in place by the
    operations, and each operation appends to the undo buffer of the transaction that calls it. */
module CatalogSets {
  import opened CatalogChains
  import opened CatalogRuns
  import opened CatalogRename

  datatype Result<+T> = Success(value: T) | Failure(error: string)

  datatype AlterInfo = RenameTo(newName: Name) | Change(payload: string, takesOID: bool)

  /** What a checkpoint writes: the counter and one record per persisted entry. */
  datatype Checkpoint = Checkpoint(nextOID: nat, records: seq<Content>)

  class Transaction {
    const id: nat
    const startTS: nat
    const keepsUndo: bool // write and recovery transactions
    var undo: seq<UndoRecord>

    constructor (id: nat, startTS: nat, keepsUndo: bool)
      ensures this.id == id && this.startTS == startTS && this.keepsUndo == keepsUndo && undo == []
    {
      this.id, this.startTS, this.keepsUndo, undo := id, startTS, keepsUndo, [];
    }

    function Tx(): Tx {
      CatalogChains.Tx(id, startTS)
    }
  }

  /** Every chain has a base that all transactions see, so a traversal never runs off its end. */
  ghost predicate Based(entries: Entries) {
    forall n :: n in entries ==>
      && |entries[n]| > 0
      && entries[n][0].timestamp == 0
      && forall i :: 0 <= i < |entries[n]| ==> entries[n][i].content.name == n
  }

  /** The latest committed entry of every chain whose newest entry is of a persisted kind, unless deleted. */
  function Persisted(entries: Entries): map<Name, Content> {
    map n | n in ViewAt(entries, START_TRANSACTION_ID - 1)
            && PersistedKind(entries[n][|entries[n]| - 1].content.kind)
      :: ViewAt(entries, START_TRANSACTION_ID - 1)[n]
  }

  predicate PersistedKind(k: Kind) {
    !k.FunctionEntry? && !k.ForeignTableEntry?
  }

  lemma PersistedAt(entries: Entries, n: Name)
    requires n in entries && |entries[n]| > 0
    ensures var chain := entries[n];
            var i := Visible(chain, Tx(0, START_TRANSACTION_ID - 1));
            && (n in Persisted(entries) <==>
                  PersistedKind(chain[|chain| - 1].content.kind) && i >= 0 && !chain[i].deleted)
            && (n in Persisted(entries) ==> Persisted(entries)[n] == chain[i].content)
  {
  }

  /** The records are the entries of a map, each once. */
  ghost predicate Lists(records: seq<Content>, m: map<Name, Content>) {
    && (forall i :: 0 <= i < |records| ==> records[i].name in m && m[records[i].name] == records[i])
    && (forall i, j :: 0 <= i < j < |records| ==> records[i].name != records[j].name)
    && (forall n :: n in m ==> m[n] in records)
  }

  /** The records list the entries of a map outside the names still to do. */
  ghost predicate ListsBut(records: seq<Content>, m: map<Name, Content>, todo: set<Name>) {
    && (forall i :: 0 <= i < |records| ==>
          records[i].name in m && m[records[i].name] == records[i] && records[i].name !in todo)
    && (forall i, j :: 0 <= i < j < |records| ==> records[i].name != records[j].name)
    && (forall n :: n in m && n !in todo ==> m[n] in records)
  }

  lemma ListsAdd(records: seq<Content>, m: map<Name, Content>, todo: set<Name>, n: Name)
    requires ListsBut(records, m, todo) && n in todo
    ensures n !in m ==> ListsBut(records, m, todo - {n})
    ensures n in m && m[n].name == n ==> ListsBut(records + [m[n]], m, todo - {n})
  {
    if n in m && m[n].name == n {
      var after := records + [m[n]];
      assert forall k :: k in records ==> k in after;
      assert after[|records|] == m[n];
    }
  }

  function LoadAll(records: seq<Content>): Entries {
    if records == [] then map[]
    else Push(LoadAll(records[..|records| - 1]), Entry(records[|records| - 1], 0, false))
  }

  class CatalogSet {
    var entries: Entries
    var nextOID: nat

    ghost predicate Valid() reads this {
      Based(entries)
    }

    constructor (isInternal: bool)
      ensures Valid() && entries == map[] && nextOID == if isInternal then START_TRANSACTION_ID else 0
    {
      entries := map[];
      nextOID := if isInternal then START_TRANSACTION_ID else 0;
    }

    // ----- lookups

    static method Traverse(tx: Tx, chain: Chain) returns (i: int)
      ensures i == Visible(chain, tx)
    {
      i := |chain| - 1;
      while i >= 0
        invariant -1 <= i < |chain|
        invariant Visible(chain, tx) == LastSeen(chain, i + 1, tx)
      {
        if chain[i].timestamp == tx.id || chain[i].timestamp <= tx.startTS { break; }
        i := i - 1;
      }
    }

    /** The newest committed entry is what a transaction beginning at the largest timestamp would see. */
    static method CommittedEntry(chain: Chain) returns (i: int)
      ensures i == Visible(chain, Tx(0, START_TRANSACTION_ID - 1))
    {
      i := |chain| - 1;
      while i >= 0
        invariant -1 <= i < |chain|
        invariant Visible(chain, Tx(0, START_TRANSACTION_ID - 1)) ==
                  LastSeen(chain, i + 1, Tx(0, START_TRANSACTION_ID - 1))
      {
        if chain[i].timestamp < START_TRANSACTION_ID { break; }
        i := i - 1;
      }
    }

    method ContainsEntry(tx: Tx, name: Name) returns (b: bool)
      requires Valid()
      ensures b <==> name in View(entries, tx)
    {
      if name !in entries { return false; }
      var i := Traverse(tx, entries[name]);
      assert Sees(entries[name][0], tx);
      b := !entries[name][i].deleted;
    }

    method GetEntry(tx: Tx, name: Name) returns (r: Result<Content>)
      requires Valid()
      ensures r.Success? <==> name in View(entries, tx)
      ensures r.Success? ==> r.value == View(entries, tx)[name]
    {
      var found := ContainsEntry(tx, name);
      if !found { return Failure(name + " does not exist in catalog."); }
      var i := Traverse(tx, entries[name]);
      r := Success(entries[name][i].content);
    }

    method GetEntries(tx: Tx) returns (result: map<Name, Content>)
      requires Valid()
      ensures result == View(entries, tx)
    {
      result := map[];
      var todo := entries.Keys;
      while todo != {}
        invariant todo <= entries.Keys
        invariant result == map n | n in View(entries, tx) && n !in todo :: View(entries, tx)[n]
      {
        var n :| n in todo;
        todo := todo - {n};
        var i := Traverse(tx, entries[n]);
        assert Sees(entries[n][0], tx);
        if !entries[n][i].deleted {
          result := result[n := entries[n][i].content];
        }
      }
    }

    /** Finds a visible entry under a name whose newest entry has the identifier. */
    method GetEntryOfOID(tx: Tx, oid: nat) returns (found: bool, name: Name, c: Content)
      requires Valid()
      ensures found ==> OIDMatch(entries, tx, oid, name) && c == View(entries, tx)[name]
      ensures !found ==> forall n :: !OIDMatch(entries, tx, oid, n)
    {
      var todo := entries.Keys;
      while todo != {}
        invariant todo <= entries.Keys
        invariant forall n :: OIDMatch(entries, tx, oid, n) ==> n in todo
      {
        var n :| n in todo;
        todo := todo - {n};
        if entries[n][|entries[n]| - 1].content.oid == oid {
          var i := Traverse(tx, entries[n]);
          assert Sees(entries[n][0], tx);
          if !entries[n][i].deleted {
            return true, n, entries[n][i].content;
          }
        }
      }
      return false, "", Content(DummyEntry, "", 0, false, "");
    }

    // ----- changes

    method Emplace(e: Entry)
      modifies this`entries
      ensures entries == Push(old(entries), e)
    {
      if e.content.name in entries {
        entries := entries[e.content.name := entries[e.content.name] + [e]];
      } else {
        entries := entries[e.content.name := [e]];
      }
    }

    method CreateNoLock(tx: Tx, c: Content) returns (o: Outcome)
      requires Valid()
      modifies this`entries
      ensures o == CreateIn(old(entries), tx, c) && entries == o.entries
      ensures Valid()
    {
      var exists_ := ContainsEntry(tx, c.name);
      if exists_ { return Outcome(entries, [], true); }
      if c.name in entries {
        var head := entries[c.name][|entries[c.name]| - 1];
        if WWConflict(tx, head) { return Outcome(entries, [], true); }
        if !head.deleted { return Outcome(entries, [], true); }
      } else {
        Emplace(DummyOf(c.name, c.oid, 0));
      }
      var r := UndoRecord(c.name, |entries[c.name]| - 1);
      Emplace(Entry(c, tx.id, false));
      o := Outcome(entries, [r], false);
    }

    method DropNoLock(tx: Tx, name: Name, oid: nat) returns (o: Outcome)
      requires Valid()
      modifies this`entries
      ensures o == DropIn(old(entries), tx, name, oid) && entries == o.entries
      ensures Valid()
    {
      var exists_ := ContainsEntry(tx, name);
      if !exists_ { return Outcome(entries, [], true); }
      var r := UndoRecord(name, |entries[name]| - 1);
      Emplace(DummyOf(name, oid, tx.id));
      o := Outcome(entries, [r], false);
    }

    method CreateEntry(t: Transaction, c: Content) returns (r: Result<nat>)
      requires Valid()
      modifies this, t
      ensures Valid()
      ensures var o := CreateIn(old(entries), t.Tx(), c.(oid := old(nextOID)));
              && entries == o.entries
              && nextOID == old(nextOID) + 1
              && t.undo == old(t.undo) + (if t.keepsUndo then o.log else [])
              && (r.Failure? <==> o.thrown)
              && (r.Success? ==> r.value == old(nextOID))
    {
      var oid := nextOID;
      nextOID := nextOID + 1;
      var o := CreateNoLock(t.Tx(), c.(oid := oid));
      if o.thrown { return Failure(c.name + " already exists in catalog."); }
      if t.keepsUndo { t.undo := t.undo + o.log; }
      r := Success(oid);
    }

    method DropEntry(t: Transaction, name: Name, oid: nat) returns (r: Result<()>)
      requires Valid()
      modifies this`entries, t
      ensures Valid()
      ensures var o := DropIn(old(entries), t.Tx(), name, oid);
              && entries == o.entries
              && t.undo == old(t.undo) + (if t.keepsUndo then o.log else [])
              && (r.Failure? <==> o.thrown)
    {
      var o := DropNoLock(t.Tx(), name, oid);
      if o.thrown { return Failure(name + " does not exist in catalog."); }
      if t.keepsUndo { t.undo := t.undo + o.log; }
      r := Success(());
    }

    method RenameNoLock(tx: Tx, name: Name, newName: Name) returns (o: Outcome)
      requires Valid()
      modifies this`entries
      ensures Valid()
      ensures o == RenameIn(old(entries), tx, name, newName) && entries == o.entries
    {
      var exists_ := ContainsEntry(tx, name);
      if !exists_ { return Outcome(entries, [], true); }
      var i := Traverse(tx, entries[name]);
      var c := entries[name][i].content;
      var dropped := DropNoLock(tx, name, c.oid);
      var created := CreateNoLock(tx, c.(name := newName));
      if created.thrown { return Outcome(entries, [], true); }
      o := Outcome(entries, [UndoRecord(name, i)] + created.log, false);
    }

    method ChangeNoLock(tx: Tx, name: Name, payload: string, takesOID: bool) returns (o: Outcome)
      requires Valid()
      modifies this
      ensures Valid()
      ensures o == AlterIn(old(entries), tx, name, payload) && entries == o.entries
      ensures nextOID == old(nextOID) + (if takesOID && !o.thrown then 1 else 0)
    {
      var exists_ := ContainsEntry(tx, name);
      if !exists_ { return Outcome(entries, [], true); }
      var i := Traverse(tx, entries[name]);
      var c := entries[name][i].content;
      if takesOID { nextOID := nextOID + 1; }
      Emplace(Entry(c.(payload := payload), tx.id, false));
      o := Outcome(entries, [UndoRecord(name, i)], false);
    }

    method AlterTableEntry(t: Transaction, name: Name, info: AlterInfo) returns (r: Result<()>)
      requires Valid()
      modifies this, t
      ensures Valid()
      ensures var o := match info
                       case RenameTo(newName) => RenameIn(old(entries), t.Tx(), name, newName)
                       case Change(payload, _) => AlterIn(old(entries), t.Tx(), name, payload);
              && entries == o.entries
              && t.undo == old(t.undo) + (if t.keepsUndo then o.log else [])
              && nextOID == old(nextOID) + (if info.Change? && info.takesOID && !o.thrown then 1 else 0)
              && (r.Failure? <==> o.thrown)
    {
      var o;
      match info {
        case RenameTo(newName) => o := RenameNoLock(t.Tx(), name, newName);
        case Change(payload, takesOID) => o := ChangeNoLock(t.Tx(), name, payload, takesOID);
      }
      if o.thrown { return Failure("Catalog exception on " + name); }
      if t.keepsUndo { t.undo := t.undo + o.log; }
      r := Success(());
    }

    // ----- undo buffer

    method CommitUndo(t: Transaction, commitTS: nat)
      requires Valid() && forall r :: r in t.undo ==> HasNext(entries, r)
      modifies this`entries
      ensures Valid() && entries == CommitAll(old(entries), t.undo, commitTS)
    {
      var k := 0;
      while k < |t.undo|
        invariant 0 <= k <= |t.undo|
        invariant Valid() && entries == CommitAll(old(entries), t.undo[..k], commitTS)
        invariant forall r :: r in t.undo ==> HasNext(entries, r)
      {
        ghost var before := entries;
        var r := t.undo[k];
        assert HasNext(entries, r);
        var chain := entries[r.name];
        entries := entries[r.name := chain[r.pos + 1 := chain[r.pos + 1].(timestamp := commitTS)]];
        assert t.undo[..k + 1][..k] == t.undo[..k];
        forall q | q in t.undo ensures HasNext(entries, q) { assert HasNext(before, q); }
        k := k + 1;
      }
      assert t.undo[..k] == t.undo;
    }

    /** Undoes from the end; the entry to unlink is always the newest of its chain. */
    method RollbackUndo(t: Transaction)
      requires Valid() && UndoOK(entries, t.undo, t.id)
      modifies this`entries
      ensures Valid() && entries == RollbackAll(old(entries), t.undo)
    {
      var k := |t.undo|;
      assert t.undo[..k] == t.undo;
      while k > 0
        invariant 0 <= k <= |t.undo|
        invariant Valid() && UndoOK(entries, t.undo[..k], t.id)
        invariant RollbackAll(entries, t.undo[..k]) == RollbackAll(old(entries), t.undo)
      {
        k := k - 1;
        LastUndo(entries, t.undo, k, t.id);
        UndoOne(t.undo[k]);
      }
    }

    /** Unlinks the entry after the recorded one, from the middle of the chain or from its top. */
    method UndoOne(r: UndoRecord)
      requires Valid() && HasNext(entries, r)
      modifies this`entries
      ensures Valid() && entries == RollbackRecord(old(entries), r)
    {
      var chain := entries[r.name];
      if r.pos + 2 < |chain| {
        entries := entries[r.name := chain[..r.pos + 1] + chain[r.pos + 2..]];
      } else {
        entries := entries - {r.name};
        entries := entries[r.name := chain[..r.pos + 1]];
      }
    }

    // ----- checkpoint

    method Serialize() returns (cp: Checkpoint)
      requires Valid()
      ensures cp.nextOID == nextOID
      ensures Lists(cp.records, Persisted(entries))
    {
      var records: seq<Content> := [];
      var todo := entries.Keys;
      ghost var m: map<Name, Content> := Persisted(entries);
      assert forall n :: n in m ==> n in entries;
      while todo != {}
        invariant todo <= entries.Keys
        invariant ListsBut(records, m, todo)
      {
        var n :| n in todo;
        var chain := entries[n];
        PersistedAt(entries, n);
        ListsAdd(records, m, todo, n);
        todo := todo - {n};
        if PersistedKind(chain[|chain| - 1].content.kind) {
          var i := CommittedEntry(chain);
          if i >= 0 && !chain[i].deleted {
            assert chain[i].content.name == n;
            records := records + [chain[i].content];
          }
        }
      }
      cp := Checkpoint(nextOID, records);
    }

    constructor Deserialize(cp: Checkpoint)
      ensures Valid() && entries == LoadAll(cp.records) && nextOID == cp.nextOID
    {
      entries := map[];
      nextOID := cp.nextOID;
      new;
      var i := 0;
      while i < |cp.records|
        invariant 0 <= i <= |cp.records|
        invariant Valid() && entries == LoadAll(cp.records[..i]) && nextOID == cp.nextOID
      {
        Emplace(Entry(cp.records[i], 0, false));
        assert cp.records[..i + 1][..i] == cp.records[..i];
        i := i + 1;
      }
      assert cp.records[..i] == cp.records;
    }
  }

  /** Undoing the last record leaves the rest to undo. */
  lemma LastUndo(entries: Entries, log: seq<UndoRecord>, k: nat, id: nat)
    requires k < |log| && UndoOK(entries, log[..k + 1], id)
    ensures HasNext(entries, log[k]) && UndoOK(RollbackRecord(entries, log[k]), log[..k], id)
    ensures RollbackAll(entries, log[..k + 1]) == RollbackAll(RollbackRecord(entries, log[k]), log[..k])
  {
    assert log[..k + 1][..k] == log[..k];
  }

  // ----- checkpoint round trip

  /** Loading distinct records gives one single-entry chain per record. */
  lemma {:induction false} LoadAllAt(records: seq<Content>, m: map<Name, Content>)
    requires forall i :: 0 <= i < |records| ==> records[i].name in m && m[records[i].name] == records[i]
    requires forall i, j :: 0 <= i < j < |records| ==> records[i].name != records[j].name
    ensures forall i :: 0 <= i < |records| ==> records[i].name in LoadAll(records)
    ensures forall n :: n in LoadAll(records) ==> exists i :: 0 <= i < |records| && records[i].name == n
    ensures forall n :: n in LoadAll(records) ==> n in m && LoadAll(records)[n] == [Entry(m[n], 0, false)]
    decreases |records|
  {
    if records != [] {
      var k := |records| - 1;
      var rest := records[..k];
      LoadAllAt(rest, m);
      assert records[k].name !in LoadAll(rest);
      forall i | 0 <= i < |records| ensures records[i].name in LoadAll(records) {
        if i < k { assert rest[i].name in LoadAll(rest); }
      }
      forall n | n in LoadAll(records) ensures exists i :: 0 <= i < |records| && records[i].name == n {
        if n in LoadAll(rest) {
          var i :| 0 <= i < |rest| && rest[i].name == n;
          assert records[i].name == n;
        }
      }
    }
  }

  /** Every transaction on a loaded catalog sees exactly what was written. */
  lemma LoadedView(records: seq<Content>, m: map<Name, Content>, tx: Tx)
    requires Lists(records, m)
    requires forall n :: n in m ==> m[n].name == n
    ensures View(LoadAll(records), tx) == m
  {
    LoadAllAt(records, m);
    var loaded := LoadAll(records);
    forall n | n in m ensures n in loaded {
      var i :| 0 <= i < |records| && records[i] == m[n];
      assert records[i].name == n;
    }
    forall n | n in loaded ensures Live(loaded[n], tx) && Visible(loaded[n], tx) == 0 {
      assert Sees(loaded[n][0], tx);
    }
  }

  /** The committed entry of a chain is the one visible as of the last commit. */
  lemma CommittedIsLast(s: System, n: Name)
    requires Inv(s) && n in s.entries
    ensures Visible(s.entries[n], Tx(0, START_TRANSACTION_ID - 1)) == Visible(s.entries[n], Tx(0, s.lastTS))
  {
    var chain := s.entries[n];
    forall i | 0 <= i < |chain|
      ensures Sees(chain[i], Tx(0, START_TRANSACTION_ID - 1)) == Sees(chain[i], Tx(0, s.lastTS))
    {
      assert EntryOK(n, chain[i], s.lastTS, Owner(s.writer));
    }
  }

  /** What a checkpoint must keep: the last committed catalog, without functions and foreign tables. */
  function Durable(view: map<Name, Content>): map<Name, Content> {
    map n | n in view && PersistedKind(view[n].kind) :: view[n]
  }

  /** For every committed name, the newest entry of its chain is persisted just when the committed one is. */
  ghost predicate KindsAgree(s: System) {
    forall n :: n in ViewAt(s.entries, s.lastTS) ==>
      |s.entries[n]| > 0 &&
      (PersistedKind(s.entries[n][|s.entries[n]| - 1].content.kind) <==>
       PersistedKind(ViewAt(s.entries, s.lastTS)[n].kind))
  }

  /** A checkpoint writes exactly the durable part of the last committed catalog if and only if the kinds agree. */
  lemma PersistedIsDurable(s: System)
    requires Inv(s)
    ensures Persisted(s.entries) == Durable(ViewAt(s.entries, s.lastTS)) <==> KindsAgree(s)
  {
    var view := ViewAt(s.entries, s.lastTS);
    forall n | n in s.entries
      ensures |s.entries[n]| > 0
      ensures n in Persisted(s.entries) <==>
              n in view && PersistedKind(s.entries[n][|s.entries[n]| - 1].content.kind)
      ensures n in Persisted(s.entries) ==> Persisted(s.entries)[n] == view[n]
    {
      assert ChainOK(n, s.entries[n], s.lastTS, Owner(s.writer));
      CommittedIsLast(s, n);
      PersistedAt(s.entries, n);
    }
    if Persisted(s.entries) == Durable(view) {
      forall n | n in view
        ensures PersistedKind(s.entries[n][|s.entries[n]| - 1].content.kind) <==> PersistedKind(view[n].kind)
      {
        assert n in Persisted(s.entries) <==> n in Durable(view);
      }
    }
  }

  /** The kinds agree when no writer is active. */
  lemma QuietKindsAgree(s: System)
    requires Inv(s) && s.writer.NoWriter?
    ensures KindsAgree(s)
  {
    forall n | n in ViewAt(s.entries, s.lastTS)
      ensures |s.entries[n]| > 0 && Visible(s.entries[n], Tx(0, s.lastTS)) == |s.entries[n]| - 1
    {
      assert ChainOK(n, s.entries[n], s.lastTS, -1);
      assert EntryOK(n, s.entries[n][|s.entries[n]| - 1], s.lastTS, -1);
    }
  }

  /** Checkpoint and reload: every transaction on the reloaded set sees the durable part of what a
      transaction beginning after the last commit saw. */
  lemma CheckpointRoundTrip(s: System, cp: Checkpoint, before: Tx, after: Tx)
    requires Inv(s) && KindsAgree(s) && Lists(cp.records, Persisted(s.entries))
    requires START_TRANSACTION_ID < before.id != Owner(s.writer) && before.startTS == s.lastTS
    ensures View(LoadAll(cp.records), after) == Durable(View(s.entries, before))
  {
    PersistedIsDurable(s);
    ReaderSeesHistory(s, before);
    var m := Persisted(s.entries);
    forall n | n in m ensures m[n].name == n {
      VisibleKind(s, n, Tx(0, s.lastTS));
    }
    LoadedView(cp.records, m, after);
  }

  /** Writing a set and loading it again keeps the counter and shows everyone what was persisted. */
  method CheckpointAndReload(catalog: CatalogSet) returns (loaded: CatalogSet)
    requires catalog.Valid()
    ensures fresh(loaded) && loaded.Valid() && loaded.nextOID == catalog.nextOID
    ensures forall tx :: View(loaded.entries, tx) == Persisted(catalog.entries)
  {
    var cp := catalog.Serialize();
    loaded := new CatalogSet.Deserialize(cp);
    ghost var m := Persisted(catalog.entries);
    forall n | n in m ensures m[n].name == n { PersistedAt(catalog.entries, n); }
    forall tx ensures View(loaded.entries, tx) == m { LoadedView(cp.records, m, tx); }
  }

  /** A reloaded catalog is an initial state again, so everything proved of runs holds after a restart. */
  lemma RestartIsInitial(s: System, cp: Checkpoint)
    requires Inv(s) && s.writer.NoWriter? && SpecOIDs(Abstract(s))
    requires cp.nextOID == s.nextOID && Lists(cp.records, Persisted(s.entries))
    ensures var r := System(LoadAll(cp.records), cp.nextOID, 1, START_TRANSACTION_ID, {}, NoWriter);
            Initial(r) && DistinctOIDs(ViewAt(r.entries, 0), r.nextOID)
  {
    var m := Persisted(s.entries);
    LoadAllAt(cp.records, m);
    QuietKindsAgree(s);
    PersistedIsDurable(s);
    forall n | n in m ensures m[n].name == n && !m[n].kind.DummyEntry? {
      VisibleKind(s, n, Tx(0, s.lastTS));
    }
    LoadedView(cp.records, m, Tx(0, 0));
    assert Abstract(s).history[s.lastTS] == ViewAt(s.entries, s.lastTS);
  }

  /** One failing run: a function that an active writer has dropped is written, since the newest entry is then a
      tombstone. */
  lemma DroppedFunctionPersists(s: System, n: Name)
    requires Initial(s) && n in s.entries && s.entries[n][0].content.kind.FunctionEntry?
    ensures Inv(s)
    ensures var r := Run(s, [BeginWrite] + [Drop(n)]);
            n in Persisted(r.entries) && n !in Durable(ViewAt(r.entries, r.lastTS)) && !KindsAgree(r)
  {
    InitialInv(s);
    BeginAndDrop(s, n);
    var r := Run(s, [BeginWrite] + [Drop(n)]);
    CommittedFirst(r, n);
    PersistedAt(r.entries, n);
    PersistedIsDurable(r);
  }

  /** The other way round: a durable entry that an active writer has dropped, and whose name it gave to a function or
      a foreign table, is not written. */
  lemma ReplacedTableLost(s: System, n: Name, kind: Kind, payload: string)
    requires Initial(s) && n in s.entries && PersistedKind(s.entries[n][0].content.kind) && !PersistedKind(kind)
    ensures Inv(s)
    ensures var r := Run(s, [BeginWrite] + [Drop(n)] + [Create(kind, n, false, payload)]);
            n !in Persisted(r.entries) && n in Durable(ViewAt(r.entries, r.lastTS)) && !KindsAgree(r)
  {
    InitialInv(s);
    DropAndCreate(s, n, kind, payload);
    var r := Run(s, [BeginWrite] + [Drop(n)] + [Create(kind, n, false, payload)]);
    CommittedFirst(r, n);
    PersistedAt(r.entries, n);
    PersistedIsDurable(r);
  }

  lemma CommittedFirst(s: System, n: Name)
    requires Inv(s) && s.writer.Writer? && n in s.entries && |s.entries[n]| > 1
    requires forall i :: 0 < i < |s.entries[n]| ==> s.entries[n][i].timestamp == s.writer.tx.id
    ensures Visible(s.entries[n], Tx(0, s.lastTS)) == 0
    ensures Visible(s.entries[n], Tx(0, START_TRANSACTION_ID - 1)) == 0
  {
    assert ChainOK(n, s.entries[n], s.lastTS, Owner(s.writer));
    CommittedIsLast(s, n);
    assert Sees(s.entries[n][0], Tx(0, s.lastTS));
  }
}
