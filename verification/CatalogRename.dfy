/** What a rename onto a name in use does to the chains, and lookups by object identifier.

    `alterTableEntry` pushes the tombstone of the old name before it tries to create the new one, and
    writes its undo records only after both.  When the create throws, the tombstone stays behind without
    a record.  The alter operator checks the new name first, which is what keeps the catalog sound. */
module CatalogRename {
  import opened CatalogChains
  import opened CatalogRuns

  /** Calling the catalog's rename keeps the invariant exactly when the new name is the old one or is not
      in use by what the writer sees. */
  lemma RenameSoundIff(s: System, name: Name, newName: Name)
    requires Inv(s) && s.writer.Writer?
    requires name in View(s.entries, s.writer.tx)
    ensures Inv(Apply(s, RenameIn(s.entries, s.writer.tx, name, newName))) <==>
            newName == name || newName !in View(s.entries, s.writer.tx)
  {
    if newName == name || newName !in View(s.entries, s.writer.tx) {
      RenameStep(s, name, newName);
    } else {
      RenameLeavesTombstone(s, name, newName);
      UnloggedEntryBreaks(s, name);
      var after := Apply(s, RenameIn(s.entries, s.writer.tx, name, newName));
      assert after.writer.undo == s.writer.undo;
      assert !WriterOK(after.entries, after.lastTS, after.lastID, after.writer);
    }
  }

  lemma RenameLeavesTombstone(s: System, name: Name, newName: Name)
    requires Inv(s) && s.writer.Writer?
    requires name != newName && name in View(s.entries, s.writer.tx) && newName in View(s.entries, s.writer.tx)
    ensures RenameIn(s.entries, s.writer.tx, name, newName) ==
            Outcome(AfterDrop(s, name).entries, [], true)
  {
    AfterDropOK(s, name);
  }

  lemma UnloggedEntryBreaks(s: System, name: Name)
    requires Inv(s) && s.writer.Writer? && name in View(s.entries, s.writer.tx)
    ensures !UndoOK(AfterDrop(s, name).entries, s.writer.undo, s.writer.tx.id)
  {
    var broken: Entries := AfterDrop(s, name).entries;
    var log, id := s.writer.undo, s.writer.tx.id;
    var p := |s.entries[name]| - 1;
    UndoExact(s.entries, log, id);
    assert UndoRecord(name, p) !in log by {
      assert !HasNext(s.entries, UndoRecord(name, p));
    }
    assert broken[name][p + 1].timestamp == id;
    if UndoOK(broken, log, id) {
      UndoExact(broken, log, id);
      assert false;
    }
  }

  /** A chain with an unlogged tombstone: the next writer's record points below it, so committing stamps
      the tombstone instead of the new entry, and the name is deleted as of that commit. */
  lemma StampedTombstoneHides(chain: Chain, tombstone: Entry, e: Entry, lastTS: nat)
    requires tombstone.deleted && lastTS + 1 < e.timestamp
    ensures !Live(chain + [tombstone.(timestamp := lastTS + 1), e], Tx(0, lastTS + 1))
  {
    var after := chain + [tombstone.(timestamp := lastTS + 1), e];
    assert after[|chain|].timestamp == lastTS + 1 && after[|chain| + 1] == e;
    assert Sees(after[|chain|], Tx(0, lastTS + 1)) && !Sees(after[|chain| + 1], Tx(0, lastTS + 1));
    assert Visible(after, Tx(0, lastTS + 1)) == |chain|;
  }

  lemma CommitOne(entries: Entries, r: UndoRecord, ts: nat)
    requires HasNext(entries, r)
    ensures CommitAll(entries, [r], ts) == CommitRecord(entries, r, ts)
  {
    assert [r][..0] == [];
    assert CommitAll(entries, [r][..0], ts) == entries;
  }

  /** The consequence: the failed rename leaves nothing to roll back and keeps its tombstone, and the next
      writer to alter the table and commit makes it disappear. */
  lemma AlterAfterFailedRenameLosesTable(s: System, name: Name, newName: Name, next: Tx, payload: string)
    requires Inv(s) && s.writer.Writer? && s.writer.undo == []
    requires name != newName && name in View(s.entries, s.writer.tx) && newName in View(s.entries, s.writer.tx)
    requires next.id > s.lastID && next.startTS == s.lastTS
    ensures var failed := RenameIn(s.entries, s.writer.tx, name, newName);
            failed.thrown && failed.log == [] && AlterLoses(failed.entries, next, name, payload)
  {
    var chain, i := s.entries[name], |s.entries[name]| - 1;
    var tombstone := DummyOf(name, chain[i].content.oid, s.writer.tx.id);
    HeadCommitted(s, name);
    AlterUnderTombstone(Push(s.entries, tombstone), chain, tombstone, next, payload);
    RenameLeavesTombstone(s, name, newName);
    assert RenameIn(s.entries, s.writer.tx, name, newName).entries == Push(s.entries, tombstone);
  }

  lemma HeadCommitted(s: System, name: Name)
    requires Inv(s) && s.writer.Writer? && s.writer.undo == [] && name in View(s.entries, s.writer.tx)
    ensures var e := s.entries[name][|s.entries[name]| - 1];
            e.timestamp <= s.lastTS && !e.deleted && e.content.name == name
  {
    WriterSeesHead(s, name);
    UndoExact(s.entries, [], s.writer.tx.id);
    assert EntryOK(name, s.entries[name][|s.entries[name]| - 1], s.lastTS, Owner(s.writer));
  }

  /** A writer starting from these chains alters the name without error, and as of its commit the name is
      gone. */
  ghost predicate AlterLoses(entries: Entries, next: Tx, name: Name, payload: string) {
    var altered, ts := AlterIn(entries, next, name, payload), next.startTS + 1;
    !altered.thrown && name !in ViewAt(CommitAll(altered.entries, altered.log, ts), ts)
  }

  lemma AlterUnderTombstone(broken: Entries, chain: Chain, tombstone: Entry, next: Tx, payload: string)
    requires var name := tombstone.content.name;
             && name in broken && broken[name] == chain + [tombstone]
             && |chain| > 0
             && var e := chain[|chain| - 1];
                e.timestamp <= next.startTS && !e.deleted && e.content.name == name
    requires tombstone.deleted && !Sees(tombstone, next) && next.startTS + 1 < next.id
    ensures AlterLoses(broken, next, tombstone.content.name, payload)
  {
    var name, i, lastTS := tombstone.content.name, |chain| - 1, next.startTS;
    assert broken[name][i] == chain[i] && broken[name][i + 1] == tombstone;
    assert Sees(broken[name][i], next);
    assert Visible(broken[name], next) == i;
    var e := Entry(chain[i].content.(payload := payload), next.id, false);
    var pushed := Push(broken, e);
    assert AlterIn(broken, next, name, payload) == Outcome(pushed, [UndoRecord(name, i)], false);
    CommitOne(pushed, UndoRecord(name, i), lastTS + 1);
    assert CommitRecord(pushed, UndoRecord(name, i), lastTS + 1)[name] ==
           chain + [tombstone.(timestamp := lastTS + 1), e];
    StampedTombstoneHides(chain, tombstone, e, lastTS);
  }

  // ----- lookup by object identifier

  function HeadOID(chain: Chain): nat
    requires |chain| > 0
  {
    chain[|chain| - 1].content.oid
  }

  /** The lookup compares the identifier of a chain's newest entry but returns the visible one. */
  ghost predicate OIDMatch(entries: Entries, tx: Tx, oid: nat, n: Name) {
    n in View(entries, tx) && |entries[n]| > 0 && HeadOID(entries[n]) == oid
  }

  /** Every answer the lookup may give is the entry with that identifier, and it is found. */
  ghost predicate OIDLookupAgrees(entries: Entries, tx: Tx) {
    && (forall oid, n :: OIDMatch(entries, tx, oid, n) ==> View(entries, tx)[n].oid == oid)
    && (forall n :: n in View(entries, tx) ==> OIDMatch(entries, tx, View(entries, tx)[n].oid, n))
  }

  /** For the writer the lookup always agrees with names, and its answer is the only one. */
  lemma OIDLookupForWriter(s: System, oid: nat, n: Name, m: Name)
    requires Inv(s) && s.writer.Writer? && SpecOIDs(Abstract(s))
    ensures OIDLookupAgrees(s.entries, s.writer.tx)
    ensures OIDMatch(s.entries, s.writer.tx, oid, n) && OIDMatch(s.entries, s.writer.tx, oid, m) ==> n == m
  {
    forall k | k in View(s.entries, s.writer.tx)
      ensures |s.entries[k]| > 0 && HeadOID(s.entries[k]) == View(s.entries, s.writer.tx)[k].oid
    {
      WriterSeesHead(s, k);
    }
  }

  /** So it does for a reader that began after the last commit, while no writer is active. */
  lemma OIDLookupWhenQuiet(s: System, tx: Tx, oid: nat, n: Name, m: Name)
    requires Inv(s) && s.writer.NoWriter? && SpecOIDs(Abstract(s))
    requires START_TRANSACTION_ID < tx.id && tx.startTS == s.lastTS
    ensures OIDLookupAgrees(s.entries, tx)
    ensures OIDMatch(s.entries, tx, oid, n) && OIDMatch(s.entries, tx, oid, m) ==> n == m
  {
    forall k | k in View(s.entries, tx)
      ensures |s.entries[k]| > 0 && HeadOID(s.entries[k]) == View(s.entries, tx)[k].oid
    {
      assert EntryOK(k, s.entries[k][|s.entries[k]| - 1], s.lastTS, -1);
      assert Visible(s.entries[k], tx) == |s.entries[k]| - 1;
    }
    ReaderSeesHistory(s, tx);
  }

  // ----- exactly when a lookup by identifier agrees with names

  /** Position of the newest entry of a chain that is not deleted, or -1. */
  function NewestLive(chain: Chain): (r: int)
    ensures -1 <= r < |chain|
    ensures r >= 0 ==> !chain[r].deleted
    ensures forall i :: r < i < |chain| ==> chain[i].deleted
  {
    if chain == [] then -1
    else if !chain[|chain| - 1].deleted then |chain| - 1
    else NewestLive(chain[..|chain| - 1])
  }

  /** Every name the transaction sees still belongs to the object it sees under it. */
  ghost predicate StillNamed(entries: Entries, tx: Tx) {
    forall n :: n in View(entries, tx) ==>
      var i := NewestLive(entries[n]);
      i >= 0 && entries[n][i].content.oid == View(entries, tx)[n].oid
  }

  /** A tombstone on top does not change the identifier that the lookup compares. */
  lemma HeadIsNewestLive(chain: Chain, j: nat)
    requires ChainMarked(chain) && j < |chain| && !chain[j].deleted
    ensures NewestLive(chain) >= 0 && chain[NewestLive(chain)].content.oid == HeadOID(chain)
  {
    var last := |chain| - 1;
    if chain[last].deleted {
      assert !chain[last - 1].deleted && chain[last].content.oid == chain[last - 1].content.oid;
      assert NewestLive(chain) == last - 1;
    }
  }

  /** In every reachable state, for every transaction: the lookup by identifier agrees with the lookup by name if
      and only if no name it sees has been given to another object since. */
  lemma OIDLookupIff(s: System, actions: seq<Action>, tx: Tx)
    requires Inv(s) && Marked(s.entries)
    ensures var r := Run(s, actions); OIDLookupAgrees(r.entries, tx) <==> StillNamed(r.entries, tx)
  {
    RunMarked(s, actions);
    var entries := Run(s, actions).entries;
    forall n | n in View(entries, tx)
      ensures |entries[n]| > 0 && NewestLive(entries[n]) >= 0
      ensures entries[n][NewestLive(entries[n])].content.oid == HeadOID(entries[n])
    {
      HeadIsNewestLive(entries[n], Visible(entries[n], tx));
    }
    if StillNamed(entries, tx) {
      forall n | n in View(entries, tx) ensures OIDMatch(entries, tx, View(entries, tx)[n].oid, n) {
      }
    } else {
      var n :| n in View(entries, tx) && entries[n][NewestLive(entries[n])].content.oid != View(entries, tx)[n].oid;
      assert !OIDMatch(entries, tx, View(entries, tx)[n].oid, n);
    }
  }

  // ----- runs that end in the failing states

  lemma {:induction false} RunAppend(s: System, xs: seq<Action>, ys: seq<Action>)
    requires Inv(s)
    ensures Run(s, xs + ys) == Run(Run(s, xs), ys)
    decreases |xs|
  {
    if xs == [] {
      assert xs + ys == ys;
    } else {
      StepRefines(s, xs[0]);
      assert (xs + ys)[1..] == xs[1..] + ys;
      RunAppend(Step(s, xs[0]), xs[1..], ys);
    }
  }

  lemma RunOne(s: System, a: Action)
    requires Inv(s)
    ensures Inv(Step(s, a)) && Run(s, [a]) == Step(s, a)
  {
    StepRefines(s, a);
    assert [a][1..] == [];
    assert Run(Step(s, a), []) == Step(s, a);
  }

  lemma RunMore(s: System, xs: seq<Action>, a: Action)
    requires Inv(s)
    ensures Inv(Run(s, xs)) && Run(s, xs + [a]) == Step(Run(s, xs), a)
  {
    RunAppend(s, xs, [a]);
    RunOne(Run(s, xs), a);
  }

  /** A name with a single, committed entry. */
  ghost predicate Single(s: System, n: Name) {
    n in s.entries && |s.entries[n]| == 1 && !s.entries[n][0].deleted
  }

  lemma DropOne(s: System, n: Name)
    requires Inv(s) && s.writer.Writer? && s.writer.undo == [] && Single(s, n)
    ensures var e, id := s.entries[n][0], s.writer.tx.id;
            Step(s, Drop(n)) ==
            s.(entries := s.entries[n := [e, DummyOf(n, e.content.oid, id)]],
               writer := s.writer.(undo := [UndoRecord(n, 0)]))
  {
    var chain := s.entries[n];
    assert EntryOK(n, chain[0], s.lastTS, Owner(s.writer));
    assert Sees(chain[0], s.writer.tx) && Visible(chain, s.writer.tx) == 0;
    var d := DummyOf(n, chain[0].content.oid, s.writer.tx.id);
    assert chain + [d] == [chain[0], d];
    assert [] + [UndoRecord(n, 0)] == [UndoRecord(n, 0)];
    assert DropIn(s.entries, s.writer.tx, n, chain[0].content.oid) ==
           Outcome(s.entries[n := [chain[0], d]], [UndoRecord(n, 0)], false);
  }

  lemma CreateOver(s: System, n: Name, e: Entry, oid: nat, kind: Kind, payload: string)
    requires Inv(s) && s.writer.Writer? && s.writer.undo == [UndoRecord(n, 0)] && !kind.DummyEntry?
    requires n in s.entries && s.entries[n] == [e, DummyOf(n, oid, s.writer.tx.id)]
    ensures var id := s.writer.tx.id;
            var c := Content(kind, n, s.nextOID, false, payload);
            Step(s, Create(kind, n, false, payload)) ==
            s.(entries := s.entries[n := s.entries[n] + [Entry(c, id, false)]], nextOID := s.nextOID + 1,
               writer := s.writer.(undo := [UndoRecord(n, 0), UndoRecord(n, 1)]))
  {
    var chain, tx := s.entries[n], s.writer.tx;
    assert Sees(chain[1], tx) && Visible(chain, tx) == 1;
    var c := Content(kind, n, s.nextOID, false, payload);
    assert CreateIn(s.entries, tx, c) ==
           Outcome(s.entries[n := chain + [Entry(c, tx.id, false)]], [UndoRecord(n, 1)], false);
    assert [UndoRecord(n, 0)] + [UndoRecord(n, 1)] == [UndoRecord(n, 0), UndoRecord(n, 1)];
  }

  /** What a new writer leaves who drops a name. */
  lemma BeginAndDrop(s: System, n: Name)
    requires Inv(s) && s.writer.NoWriter? && Single(s, n)
    ensures var r := Run(s, [BeginWrite] + [Drop(n)]);
            var e, id := s.entries[n][0], s.lastID + 1;
            r == s.(entries := s.entries[n := [e, DummyOf(n, e.content.oid, id)]], lastID := id,
                    writer := Writer(Tx(id, s.lastTS), [UndoRecord(n, 0)]))
  {
    RunOne(s, BeginWrite);
    RunMore(s, [BeginWrite], Drop(n));
    DropOne(Step(s, BeginWrite), n);
  }

  /** And who then creates it again. */
  lemma DropAndCreate(s: System, n: Name, kind: Kind, payload: string)
    requires Inv(s) && s.writer.NoWriter? && !kind.DummyEntry? && Single(s, n)
    ensures var r := Run(s, [BeginWrite] + [Drop(n)] + [Create(kind, n, false, payload)]);
            var e, id := s.entries[n][0], s.lastID + 1;
            && r.lastTS == s.lastTS && r.readers == s.readers && n in r.entries
            && r.entries[n] == [e, DummyOf(n, e.content.oid, id),
                                Entry(Content(kind, n, s.nextOID, false, payload), id, false)]
            && r.writer == Writer(Tx(id, s.lastTS), [UndoRecord(n, 0), UndoRecord(n, 1)])
  {
    var xs, create := [BeginWrite] + [Drop(n)], Create(kind, n, false, payload);
    var e, id := s.entries[n][0], s.lastID + 1;
    var dropped := s.(entries := s.entries[n := [e, DummyOf(n, e.content.oid, id)]], lastID := id,
                      writer := Writer(Tx(id, s.lastTS), [UndoRecord(n, 0)]));
    assert Run(s, xs) == dropped by { BeginAndDrop(s, n); }
    assert Inv(dropped) && Run(s, xs + [create]) == Step(dropped, create) by { RunMore(s, xs, create); }
    CreateAfterDrop(dropped, n, e, id, s.lastTS, kind, payload);
  }

  lemma CreateAfterDrop(dropped: System, n: Name, e: Entry, id: nat, lastTS: nat, kind: Kind, payload: string)
    requires Inv(dropped) && dropped.writer == Writer(Tx(id, lastTS), [UndoRecord(n, 0)]) && !kind.DummyEntry?
    requires n in dropped.entries && dropped.entries[n] == [e, DummyOf(n, e.content.oid, id)]
    ensures var r := Step(dropped, Create(kind, n, false, payload));
            && r.lastTS == dropped.lastTS && r.readers == dropped.readers && n in r.entries
            && r.entries[n] == [e, DummyOf(n, e.content.oid, id),
                                Entry(Content(kind, n, dropped.nextOID, false, payload), id, false)]
            && r.writer == Writer(Tx(id, lastTS), [UndoRecord(n, 0), UndoRecord(n, 1)])
  {
    var d, f := DummyOf(n, e.content.oid, id), Entry(Content(kind, n, dropped.nextOID, false, payload), id, false);
    CreateOver(dropped, n, e, e.content.oid, kind, payload);
    assert [e, d] + [f] == [e, d, f];
  }

  lemma CommitTwo(entries: Entries, n: Name, e: Entry, d: Entry, f: Entry, ts: nat)
    requires n in entries && entries[n] == [e, d, f]
    ensures var after := CommitAll(entries, [UndoRecord(n, 0), UndoRecord(n, 1)], ts);
            n in after && after[n] == [e, d.(timestamp := ts), f.(timestamp := ts)]
  {
    var r, q := UndoRecord(n, 0), UndoRecord(n, 1);
    CommitOne(entries, r, ts);
    assert [r, q][..1] == [r];
  }

  /** A loaded catalog, a reader, and a writer who drops a name, creates it again and commits. */
  function Recreation(n: Name, kind: Kind, payload: string): seq<Action> {
    [BeginRead] + ([BeginWrite] + [Drop(n)] + [Create(kind, n, false, payload)] + [Commit])
  }

  /** The reader still sees the old object, and its lookup of the new object's identifier returns the old one. */
  lemma OIDLookupStale(s: System, n: Name, kind: Kind, payload: string)
    requires Initial(s) && n in s.entries && s.entries[n][0].content.oid < s.nextOID && !kind.DummyEntry?
    ensures Inv(s)
    ensures var r, tx := Run(s, Recreation(n, kind, payload)), Tx(START_TRANSACTION_ID + 1, 1);
            && tx in r.readers && r.lastTS == 2
            && n in View(r.entries, tx) && View(r.entries, tx)[n] == s.entries[n][0].content
            && OIDMatch(r.entries, tx, s.nextOID, n) && !OIDLookupAgrees(r.entries, tx)
  {
    InitialInv(s);
    RunOne(s, BeginRead);
    var reading := Step(s, BeginRead);
    var work := [BeginWrite] + [Drop(n)] + [Create(kind, n, false, payload)];
    RunAppend(s, [BeginRead], work + [Commit]);
    RunMore(reading, work, Commit);
    DropAndCreate(reading, n, kind, payload);
    var written := Run(reading, work);
    var chain := written.entries[n];
    CommitTwo(written.entries, n, chain[0], chain[1], chain[2], 2);
    OldSeesFirst(Step(written, Commit).entries[n], Tx(START_TRANSACTION_ID + 1, 1));
  }

  lemma OldSeesFirst(chain: Chain, tx: Tx)
    requires |chain| == 3 && Sees(chain[0], tx) && !Sees(chain[1], tx) && !Sees(chain[2], tx)
    ensures Visible(chain, tx) == 0
  {
  }
}
