/** Runs of the catalog under the default rule of one writer and any number of readers, and their
    refinement to a history of plain maps, one per commit timestamp. */
module CatalogRuns {
  import opened CatalogChains

  datatype Writer = NoWriter | Writer(tx: Tx, undo: seq<UndoRecord>)

  /** `lastTS` and `lastID` are the transaction manager's counters, `readers` its active readers. */
  datatype System = System(entries: Entries, nextOID: nat, lastTS: nat, lastID: nat,
                           readers: set<Tx>, writer: Writer)

  datatype Action =
    | BeginRead
    | EndRead(tx: Tx)
    | BeginWrite
    | Create(kind: Kind, name: Name, hasParent: bool, payload: string)
    | Drop(name: Name)
    | Alter(name: Name, payload: string, takesOID: bool)
    | Rename(name: Name, newName: Name)
    | ReserveOID
    | Commit
    | Rollback

  // ----- one step

  function CommitAll(entries: Entries, log: seq<UndoRecord>, commitTS: nat): Entries
    decreases |log|
  {
    if log == [] then entries
    else
      var before := CommitAll(entries, log[..|log| - 1], commitTS);
      var r := log[|log| - 1];
      if HasNext(before, r) then CommitRecord(before, r, commitTS) else before
  }

  function RollbackAll(entries: Entries, log: seq<UndoRecord>): Entries
    decreases |log|
  {
    if log == [] then entries
    else
      var r := log[|log| - 1];
      var undone := if HasNext(entries, r) then RollbackRecord(entries, r) else entries;
      RollbackAll(undone, log[..|log| - 1])
  }

  function VisibleOID(entries: Entries, tx: Tx, name: Name): nat {
    if name in View(entries, tx) then View(entries, tx)[name].oid else 0
  }

  function Apply(s: System, o: Outcome): System
    requires s.writer.Writer?
  {
    s.(entries := o.entries, writer := s.writer.(undo := s.writer.undo + o.log))
  }

  ghost predicate NonEmptyChains(entries: Entries) {
    forall n :: n in entries ==> |entries[n]| > 0
  }

  /** One atomic step.  An action that the system refuses leaves everything as it was, except that a
      refused create has already taken its object identifier. */
  function Step(s: System, a: Action): System
    requires NonEmptyChains(s.entries)
  {
    match a
    case BeginRead =>
      s.(lastID := s.lastID + 1, readers := s.readers + {Tx(s.lastID + 1, s.lastTS)})
    case EndRead(tx) => s.(readers := s.readers - {tx})
    case BeginWrite =>
      if s.writer.Writer? then s
      else s.(lastID := s.lastID + 1, writer := Writer(Tx(s.lastID + 1, s.lastTS), []))
    case ReserveOID => s.(nextOID := s.nextOID + 1)
    case Create(kind, name, hasParent, payload) =>
      if s.writer.NoWriter? || kind.DummyEntry? then s
      else
        var c := Content(kind, name, s.nextOID, hasParent, payload);
        Apply(s, CreateIn(s.entries, s.writer.tx, c)).(nextOID := s.nextOID + 1)
    case Drop(name) =>
      // Callers look the entry up first and pass its identifier on.
      if s.writer.NoWriter? then s
      else Apply(s, DropIn(s.entries, s.writer.tx, name, VisibleOID(s.entries, s.writer.tx, name)))
    case Alter(name, payload, takesOID) =>
      if s.writer.NoWriter? then s
      else
        var o := AlterIn(s.entries, s.writer.tx, name, payload);
        Apply(s, o).(nextOID := if takesOID && !o.thrown then s.nextOID + 1 else s.nextOID)
    case Rename(name, newName) =>
      // The alter operator refuses a new name the writer already sees before it calls the catalog.
      if s.writer.NoWriter? || newName in View(s.entries, s.writer.tx) then s
      else Apply(s, RenameIn(s.entries, s.writer.tx, name, newName))
    case Commit =>
      if s.writer.NoWriter? || s.lastTS + 1 >= START_TRANSACTION_ID then s
      else
        s.(lastTS := s.lastTS + 1, writer := NoWriter,
           entries := CommitAll(s.entries, s.writer.undo, s.lastTS + 1))
    case Rollback =>
      if s.writer.NoWriter? then s
      else s.(writer := NoWriter, entries := RollbackAll(s.entries, s.writer.undo))
  }

  // ----- the specification: a history of maps and the writer's working copy

  type Snapshot = map<Name, Content>

  datatype Working = Idle | Working(view: Snapshot)

  datatype Spec = Spec(history: seq<Snapshot>, working: Working, nextOID: nat)

  function SpecStep(t: Spec, a: Action): Spec
    requires |t.history| > 0
  {
    match a
    case BeginRead => t
    case EndRead(_) => t
    case ReserveOID => t.(nextOID := t.nextOID + 1)
    case BeginWrite =>
      if t.working.Working? then t else t.(working := Working(t.history[|t.history| - 1]))
    case Create(kind, name, hasParent, payload) =>
      if t.working.Idle? || kind.DummyEntry? then t
      else if name in t.working.view then t.(nextOID := t.nextOID + 1)
      else
        var c := Content(kind, name, t.nextOID, hasParent, payload);
        t.(working := Working(t.working.view[name := c]), nextOID := t.nextOID + 1)
    case Drop(name) =>
      if t.working.Idle? then t else t.(working := Working(t.working.view - {name}))
    case Alter(name, payload, takesOID) =>
      if t.working.Idle? || name !in t.working.view then t
      else
        t.(working := Working(t.working.view[name := t.working.view[name].(payload := payload)]),
           nextOID := if takesOID then t.nextOID + 1 else t.nextOID)
    case Rename(name, newName) =>
      if t.working.Idle? || name !in t.working.view || newName in t.working.view then t
      else
        var c := t.working.view[name].(name := newName);
        t.(working := Working((t.working.view - {name})[newName := c]))
    case Commit =>
      if t.working.Idle? || |t.history| >= START_TRANSACTION_ID then t
      else t.(history := t.history + [t.working.view], working := Idle)
    case Rollback => t.(working := Idle)
  }

  function History(entries: Entries, lastTS: nat): (h: seq<Snapshot>)
    ensures |h| == lastTS + 1
    ensures forall ts :: 0 <= ts <= lastTS ==> h[ts] == ViewAt(entries, ts)
  {
    seq(lastTS + 1, ts requires 0 <= ts <= lastTS => ViewAt(entries, ts))
  }

  function WorkingOf(entries: Entries, w: Writer): Working {
    if w.Writer? then Working(View(entries, w.tx)) else Idle
  }

  /** What a state of the chains stands for. */
  function Abstract(s: System): Spec {
    Spec(History(s.entries, s.lastTS), WorkingOf(s.entries, s.writer), s.nextOID)
  }

  // ----- the invariant

  /** The active writer's identifier, or -1. */
  function Owner(w: Writer): int {
    if w.Writer? then w.tx.id else -1
  }

  /** An entry sits under its own name, is committed or the owner's, and is deleted just when a dummy. */
  ghost predicate EntryOK(name: Name, e: Entry, lastTS: nat, owner: int) {
    && e.content.name == name
    && (e.timestamp <= lastTS || e.timestamp == owner)
    && (e.deleted <==> e.content.kind.DummyEntry?)
  }

  /** The base of a chain is visible to everyone. */
  ghost predicate ChainOK(name: Name, chain: Chain, lastTS: nat, owner: int) {
    && |chain| > 0
    && chain[0].timestamp == 0
    && (forall i {:trigger EntryOK(name, chain[i], lastTS, owner)} ::
          0 <= i < |chain| ==> EntryOK(name, chain[i], lastTS, owner))
  }

  ghost predicate ChainsOK(entries: Entries, lastTS: nat, owner: int) {
    forall n :: n in entries ==> ChainOK(n, entries[n], lastTS, owner)
  }

  ghost predicate Committed(entries: Entries, id: nat) {
    forall n, i :: n in entries && 0 <= i < |entries[n]| ==> entries[n][i].timestamp != id
  }

  /** Undoing the log from its end takes the writer's entries off the tops of the chains, one by one,
      until only committed entries are left. */
  ghost predicate UndoOK(entries: Entries, log: seq<UndoRecord>, id: nat)
    decreases |log|
  {
    if log == [] then Committed(entries, id)
    else
      var r := log[|log| - 1];
      && r.name in entries
      && r.pos + 2 == |entries[r.name]|
      && entries[r.name][r.pos + 1].timestamp == id
      && UndoOK(entries[r.name := entries[r.name][..r.pos + 1]], log[..|log| - 1], id)
  }

  ghost predicate TxOK(tx: Tx, lastTS: nat, lastID: nat) {
    START_TRANSACTION_ID < tx.id <= lastID && tx.startTS <= lastTS
  }

  ghost predicate ReadersOK(readers: set<Tx>, lastTS: nat, lastID: nat, w: Writer) {
    forall tx :: tx in readers ==> TxOK(tx, lastTS, lastID) && (w.Writer? ==> tx.id != w.tx.id)
  }

  ghost predicate WriterOK(entries: Entries, lastTS: nat, lastID: nat, w: Writer) {
    w.Writer? ==> TxOK(w.tx, lastTS, lastID) && w.tx.startTS == lastTS && UndoOK(entries, w.undo, w.tx.id)
  }

  ghost predicate Inv(s: System) {
    && s.lastTS < START_TRANSACTION_ID <= s.lastID
    && ChainsOK(s.entries, s.lastTS, Owner(s.writer))
    && ReadersOK(s.readers, s.lastTS, s.lastID, s.writer)
    && WriterOK(s.entries, s.lastTS, s.lastID, s.writer)
  }

  // ----- how one push changes what each transaction sees

  lemma PushUnseen(entries: Entries, e: Entry, tx: Tx)
    requires e.content.name in entries
    requires !Sees(e, tx)
    ensures View(Push(entries, e), tx) == View(entries, tx)
  {
    var n := e.content.name;
    var chain := entries[n] + [e];
    assert forall k :: 0 <= k < |entries[n]| ==> chain[k] == entries[n][k];
    assert Visible(chain, tx) == Visible(entries[n], tx);
  }

  lemma PushSeen(entries: Entries, e: Entry, tx: Tx)
    requires Sees(e, tx)
    ensures View(Push(entries, e), tx) ==
            if e.deleted then View(entries, tx) - {e.content.name}
            else View(entries, tx)[e.content.name := e.content]
  {
    var n := e.content.name;
    var after := Push(entries, e);
    assert after[n][|after[n]| - 1] == e;
    assert Visible(after[n], tx) == |after[n]| - 1;
  }

  lemma BaseUnseen(entries: Entries, name: Name, oid: nat, tx: Tx)
    ensures View(WithBase(entries, name, oid), tx) == View(entries, tx)
  {
  }

  // ----- the undo log

  lemma {:induction false} UndoNames(entries: Entries, log: seq<UndoRecord>, id: nat)
    requires UndoOK(entries, log, id)
    ensures forall r :: r in log ==> r.name in entries
    decreases |log|
  {
    if log != [] {
      var r := log[|log| - 1];
      UndoNames(entries[r.name := entries[r.name][..r.pos + 1]], log[..|log| - 1], id);
    }
  }

  lemma {:induction false} UndoBase(entries: Entries, log: seq<UndoRecord>, id: nat, name: Name, oid: nat)
    requires UndoOK(entries, log, id)
    requires id != 0
    ensures UndoOK(WithBase(entries, name, oid), log, id)
    decreases |log|
  {
    if name !in entries {
      var based := WithBase(entries, name, oid);
      if log == [] {
        assert Committed(based, id);
      } else {
        var r := log[|log| - 1];
        var under := entries[r.name := entries[r.name][..r.pos + 1]];
        UndoBase(under, log[..|log| - 1], id, name, oid);
        assert WithBase(under, name, oid) == based[r.name := based[r.name][..r.pos + 1]];
      }
    }
  }

  lemma UndoPush(entries: Entries, log: seq<UndoRecord>, id: nat, e: Entry)
    requires UndoOK(entries, log, id)
    requires e.content.name in entries && |entries[e.content.name]| > 0 && e.timestamp == id
    ensures UndoOK(Push(entries, e), log + [UndoRecord(e.content.name, |entries[e.content.name]| - 1)], id)
  {
    var n := e.content.name;
    var r := UndoRecord(n, |entries[n]| - 1);
    var after := Push(entries, e);
    assert (log + [r])[..|log + [r]| - 1] == log;
    assert after[n][..r.pos + 1] == entries[n];
    assert after[n := entries[n]] == entries;
  }

  /** The log points at exactly the writer's entries. */
  lemma {:induction false} UndoExact(entries: Entries, log: seq<UndoRecord>, id: nat)
    requires UndoOK(entries, log, id)
    ensures forall n, p :: n in entries && 0 <= p < |entries[n]| - 1 ==>
              (UndoRecord(n, p) in log <==> entries[n][p + 1].timestamp == id)
    ensures forall r :: r in log ==> HasNext(entries, r)
    ensures forall n :: n in entries && |entries[n]| > 0 ==> entries[n][0].timestamp != id
    decreases |log|
  {
    if log != [] {
      var r, rest := log[|log| - 1], log[..|log| - 1];
      assert log == rest + [r];
      var under := entries[r.name := entries[r.name][..r.pos + 1]];
      UndoExact(under, rest, id);
      assert !HasNext(under, r);
      assert forall n :: n in entries && |entries[n]| > 0 ==> under[n][0] == entries[n][0];
    }
  }

  lemma {:induction false} CommitAllAt(entries: Entries, log: seq<UndoRecord>, ts: nat)
    requires forall r :: r in log ==> HasNext(entries, r)
    ensures var after := CommitAll(entries, log, ts);
            && after.Keys == entries.Keys
            && (forall n :: n in entries ==> |after[n]| == |entries[n]|)
            && (forall n, p :: n in entries && 0 <= p < |entries[n]| ==>
                  after[n][p] == if p > 0 && UndoRecord(n, p - 1) in log
                                 then entries[n][p].(timestamp := ts) else entries[n][p])
    decreases |log|
  {
    if log != [] {
      var r, rest := log[|log| - 1], log[..|log| - 1];
      assert log == rest + [r];
      CommitAllAt(entries, rest, ts);
    }
  }

  /** Rolling back a well-formed log never unlinks from the middle and leaves only committed entries. */
  lemma {:induction false} RollbackAllAt(entries: Entries, log: seq<UndoRecord>, id: nat)
    requires UndoOK(entries, log, id)
    ensures var after := RollbackAll(entries, log);
            && after.Keys == entries.Keys
            && Committed(after, id)
            && (forall n :: n in entries ==> after[n] <= entries[n])
            && (forall n, p :: n in entries && |after[n]| <= p < |entries[n]| ==>
                  entries[n][p].timestamp == id)
            && (forall n :: n in entries && |entries[n]| > 0 ==> |after[n]| > 0)
    decreases |log|
  {
    if log != [] {
      var r := log[|log| - 1];
      RollbackAllAt(entries[r.name := entries[r.name][..r.pos + 1]], log[..|log| - 1], id);
    }
  }

  // ----- the writer's steps keep the invariant and follow the specification

  /** The writer sees the newest entry of every chain. */
  lemma WriterSeesHead(s: System, n: Name)
    requires Inv(s) && s.writer.Writer? && n in s.entries
    ensures Visible(s.entries[n], s.writer.tx) == |s.entries[n]| - 1
  {
    assert EntryOK(n, s.entries[n][|s.entries[n]| - 1], s.lastTS, Owner(s.writer));
  }

  lemma BaseStep(s: System, name: Name, oid: nat)
    requires Inv(s) && s.writer.Writer?
    ensures var after := s.(entries := WithBase(s.entries, name, oid));
            Inv(after) && Abstract(after) == Abstract(s)
  {
    var after := s.(entries := WithBase(s.entries, name, oid));
    UndoBase(s.entries, s.writer.undo, s.writer.tx.id, name, oid);
    forall tx ensures View(after.entries, tx) == View(s.entries, tx) {
      BaseUnseen(s.entries, name, oid, tx);
    }
  }

  lemma PushChains(entries: Entries, e: Entry, lastTS: nat)
    requires ChainsOK(entries, lastTS, e.timestamp) && e.content.name in entries
    requires e.deleted <==> e.content.kind.DummyEntry?
    ensures ChainsOK(Push(entries, e), lastTS, e.timestamp)
  {
    var n := e.content.name;
    var chain := entries[n] + [e];
    assert ChainOK(n, entries[n], lastTS, e.timestamp);
    assert EntryOK(n, e, lastTS, e.timestamp);
    forall i | 0 <= i < |chain| ensures EntryOK(n, chain[i], lastTS, e.timestamp) {
      if i < |entries[n]| { assert EntryOK(n, entries[n][i], lastTS, e.timestamp); }
    }
    assert ChainOK(n, chain, lastTS, e.timestamp);
  }

  lemma PushAbstract(s: System, e: Entry)
    requires s.lastTS < START_TRANSACTION_ID < e.timestamp && s.writer.Writer?
    requires e.content.name in s.entries && e.timestamp == s.writer.tx.id
    ensures var n, t := e.content.name, Abstract(s);
            Abstract(s.(entries := Push(s.entries, e))) ==
            t.(working := Working(if e.deleted then t.working.view - {n} else t.working.view[n := e.content]))
  {
    PushSeen(s.entries, e, s.writer.tx);
    forall ts | 0 <= ts <= s.lastTS ensures ViewAt(Push(s.entries, e), ts) == ViewAt(s.entries, ts) {
      PushUnseen(s.entries, e, Tx(0, ts));
    }
  }

  lemma PushStep(s: System, e: Entry)
    requires Inv(s) && s.writer.Writer?
    requires e.content.name in s.entries && e.timestamp == s.writer.tx.id
    requires e.deleted <==> e.content.kind.DummyEntry?
    ensures var n := e.content.name;
            var after := Apply(s, Outcome(Push(s.entries, e), [UndoRecord(n, |s.entries[n]| - 1)], false));
            var t := Abstract(s);
            && Inv(after)
            && Abstract(after) == t.(working := Working(if e.deleted then t.working.view - {n}
                                                        else t.working.view[n := e.content]))
  {
    UndoPush(s.entries, s.writer.undo, s.writer.tx.id, e);
    PushChains(s.entries, e, s.lastTS);
    PushAbstract(s, e);
    var n := e.content.name;
    var after := Apply(s, Outcome(Push(s.entries, e), [UndoRecord(n, |s.entries[n]| - 1)], false));
    assert Abstract(after) == Abstract(s.(entries := Push(s.entries, e)));
  }

  lemma CreateStep(s: System, c: Content)
    requires Inv(s) && s.writer.Writer? && !c.kind.DummyEntry?
    ensures var after := Apply(s, CreateIn(s.entries, s.writer.tx, c));
            var view := Abstract(s).working.view;
            && Inv(after)
            && (CreateIn(s.entries, s.writer.tx, c).thrown <==> c.name in view)
            && Abstract(after) == if c.name in view then Abstract(s)
                                  else Abstract(s).(working := Working(view[c.name := c]))
  {
    if c.name in s.entries { WriterSeesHead(s, c.name); }
    if c.name !in View(s.entries, s.writer.tx) {
      BaseStep(s, c.name, c.oid);
      PushStep(s.(entries := WithBase(s.entries, c.name, c.oid)), Entry(c, s.writer.tx.id, false));
    } else {
      NothingToCreate(s, c);
    }
  }

  lemma NothingToCreate(s: System, c: Content)
    requires Inv(s) && s.writer.Writer? && c.name in View(s.entries, s.writer.tx)
    ensures CreateIn(s.entries, s.writer.tx, c).thrown && Apply(s, CreateIn(s.entries, s.writer.tx, c)) == s
  {
    assert s.writer.undo + [] == s.writer.undo;
  }

  lemma DropStep(s: System, name: Name, oid: nat)
    requires Inv(s) && s.writer.Writer?
    ensures var after := Apply(s, DropIn(s.entries, s.writer.tx, name, oid));
            && Inv(after)
            && Abstract(after) == Abstract(s).(working := Working(Abstract(s).working.view - {name}))
  {
    if name in View(s.entries, s.writer.tx) {
      PushStep(s, DummyOf(name, oid, s.writer.tx.id));
    } else {
      NothingToDrop(s, name, oid);
    }
  }

  lemma NothingToDrop(s: System, name: Name, oid: nat)
    requires Inv(s) && s.writer.Writer? && name !in View(s.entries, s.writer.tx)
    ensures Apply(s, DropIn(s.entries, s.writer.tx, name, oid)) == s
    ensures Abstract(s).(working := Working(Abstract(s).working.view - {name})) == Abstract(s)
  {
    assert s.writer.undo + [] == s.writer.undo;
    assert View(s.entries, s.writer.tx) - {name} == View(s.entries, s.writer.tx);
  }

  lemma AlterStep(s: System, name: Name, payload: string)
    requires Inv(s) && s.writer.Writer?
    ensures var o := AlterIn(s.entries, s.writer.tx, name, payload);
            var view := Abstract(s).working.view;
            && Inv(Apply(s, o))
            && (o.thrown <==> name !in view)
            && Abstract(Apply(s, o)) ==
               if o.thrown then Abstract(s)
               else Abstract(s).(working := Working(view[name := view[name].(payload := payload)]))
  {
    if name in View(s.entries, s.writer.tx) {
      WriterSeesHead(s, name);
      var c := s.entries[name][|s.entries[name]| - 1].content;
      VisibleKind(s, name, s.writer.tx);
      PushStep(s, Entry(c.(payload := payload), s.writer.tx.id, false));
    } else {
      assert s.writer.undo + [] == s.writer.undo;
    }
  }

  /** The state between the two halves of a rename. */
  function AfterDrop(s: System, name: Name): System
    requires s.writer.Writer? && name in s.entries && |s.entries[name]| > 0
  {
    var i := |s.entries[name]| - 1;
    Apply(s, Outcome(Push(s.entries, DummyOf(name, s.entries[name][i].content.oid, s.writer.tx.id)),
                     [UndoRecord(name, i)], false))
  }

  lemma AfterDropOK(s: System, name: Name)
    requires Inv(s) && s.writer.Writer? && name in View(s.entries, s.writer.tx)
    ensures var view := View(s.entries, s.writer.tx);
            && Visible(s.entries[name], s.writer.tx) == |s.entries[name]| - 1
            && Inv(AfterDrop(s, name))
            && Abstract(AfterDrop(s, name)) == Abstract(s).(working := Working(view - {name}))
  {
    var e := DummyOf(name, s.entries[name][|s.entries[name]| - 1].content.oid, s.writer.tx.id);
    assert Visible(s.entries[name], s.writer.tx) == |s.entries[name]| - 1 by { WriterSeesHead(s, name); }
    PushStep(s, e);
    assert AfterDrop(s, name) ==
           Apply(s, Outcome(Push(s.entries, e), [UndoRecord(name, |s.entries[name]| - 1)], false));
  }

  lemma RenameIsDropThenCreate(s: System, name: Name, newName: Name)
    requires NonEmptyChains(s.entries) && s.writer.Writer? && name in View(s.entries, s.writer.tx)
    requires Visible(s.entries[name], s.writer.tx) == |s.entries[name]| - 1
    ensures var o := RenameIn(s.entries, s.writer.tx, name, newName);
            var mid := AfterDrop(s, name);
            var created := CreateIn(mid.entries, s.writer.tx, View(s.entries, s.writer.tx)[name].(name := newName));
            && o.thrown == created.thrown
            && (!o.thrown ==> Apply(s, o) == Apply(mid, created))
  {
    var i := |s.entries[name]| - 1;
    var created := CreateIn(AfterDrop(s, name).entries, s.writer.tx, s.entries[name][i].content.(name := newName));
    assert s.writer.undo + ([UndoRecord(name, i)] + created.log)
        == (s.writer.undo + [UndoRecord(name, i)]) + created.log;
  }

  lemma VisibleKind(s: System, name: Name, tx: Tx)
    requires Inv(s) && name in View(s.entries, tx)
    ensures !View(s.entries, tx)[name].kind.DummyEntry? && View(s.entries, tx)[name].name == name
  {
    assert EntryOK(name, s.entries[name][Visible(s.entries[name], tx)], s.lastTS, Owner(s.writer));
  }

  lemma RenameStep(s: System, name: Name, newName: Name)
    requires Inv(s) && s.writer.Writer?
    requires newName == name || newName !in View(s.entries, s.writer.tx)
    ensures var o := RenameIn(s.entries, s.writer.tx, name, newName);
            var view := Abstract(s).working.view;
            && Inv(Apply(s, o))
            && (o.thrown <==> name !in view)
            && Abstract(Apply(s, o)) ==
               if o.thrown then Abstract(s)
               else Abstract(s).(working := Working((view - {name})[newName := view[name].(name := newName)]))
  {
    var view := View(s.entries, s.writer.tx);
    if name in view {
      VisibleKind(s, name, s.writer.tx);
      AfterDropOK(s, name);
      CreateStep(AfterDrop(s, name), view[name].(name := newName));
      RenameIsDropThenCreate(s, name, newName);
    } else {
      assert s.writer.undo + [] == s.writer.undo;
    }
  }

  // ----- commit, rollback and begin, chain by chain

  /** Two chains show the same entry, up to its timestamp, to one transaction each. */
  ghost predicate ShowsSame(c: Chain, c': Chain, tx: Tx, tx': Tx) {
    var i, j := Visible(c, tx), Visible(c', tx');
    && (i < 0 <==> j < 0)
    && (i >= 0 ==> c[i].content == c'[j].content && c[i].deleted == c'[j].deleted)
  }

  lemma ViewsEqual(entries: Entries, entries': Entries, tx: Tx, tx': Tx)
    requires entries.Keys == entries'.Keys
    requires forall n :: n in entries ==> ShowsSame(entries[n], entries'[n], tx, tx')
    ensures View(entries, tx) == View(entries', tx')
  {
    assert forall n :: n in entries ==> n in entries' && Live(entries[n], tx) == Live(entries'[n], tx');
  }

  ghost predicate Restamped(c: Chain, c': Chain, id: nat, ts: nat) {
    && |c'| == |c|
    && forall p :: 0 <= p < |c| ==>
         c'[p] == if c[p].timestamp == id then c[p].(timestamp := ts) else c[p]
  }

  lemma RestampOK(name: Name, c: Chain, c': Chain, lastTS: nat, w: Tx)
    requires ChainOK(name, c, lastTS, w.id) && lastTS < START_TRANSACTION_ID < w.id
    requires Restamped(c, c', w.id, lastTS + 1)
    ensures ChainOK(name, c', lastTS + 1, -1)
  {
    forall i | 0 <= i < |c| ensures EntryOK(name, c'[i], lastTS + 1, -1) {
      assert EntryOK(name, c[i], lastTS, w.id);
    }
  }

  lemma RestampOld(name: Name, c: Chain, c': Chain, lastTS: nat, w: Tx, ts: nat)
    requires ChainOK(name, c, lastTS, w.id) && lastTS < START_TRANSACTION_ID < w.id
    requires Restamped(c, c', w.id, lastTS + 1) && ts <= lastTS
    ensures ShowsSame(c, c', Tx(0, ts), Tx(0, ts))
  {
    forall i | 0 <= i < |c| ensures Sees(c'[i], Tx(0, ts)) == Sees(c[i], Tx(0, ts)) {
      assert EntryOK(name, c[i], lastTS, w.id);
    }
    assert Visible(c, Tx(0, ts)) == Visible(c', Tx(0, ts));
  }

  lemma RestampNew(name: Name, c: Chain, c': Chain, lastTS: nat, w: Tx)
    requires ChainOK(name, c, lastTS, w.id) && w.startTS == lastTS
    requires Restamped(c, c', w.id, lastTS + 1)
    ensures ShowsSame(c, c', w, Tx(0, lastTS + 1))
  {
    var last := |c| - 1;
    assert EntryOK(name, c[last], lastTS, w.id);
    assert Visible(c, w) == last == Visible(c', Tx(0, lastTS + 1));
  }

  lemma CommitChains(s: System)
    requires Inv(s) && s.writer.Writer?
    ensures var after := CommitAll(s.entries, s.writer.undo, s.lastTS + 1);
            && after.Keys == s.entries.Keys
            && (forall n :: n in after ==> Restamped(s.entries[n], after[n], s.writer.tx.id, s.lastTS + 1))
  {
    var id, log, ts := s.writer.tx.id, s.writer.undo, s.lastTS + 1;
    UndoExact(s.entries, log, id);
    CommitAllAt(s.entries, log, ts);
    var after := CommitAll(s.entries, log, ts);
    forall n | n in after ensures Restamped(s.entries[n], after[n], id, ts) {
      forall p | 0 <= p < |after[n]|
        ensures after[n][p] == if s.entries[n][p].timestamp == id
                               then s.entries[n][p].(timestamp := ts) else s.entries[n][p]
      {
        if p > 0 { assert UndoRecord(n, p - 1) in log <==> s.entries[n][(p - 1) + 1].timestamp == id; }
      }
    }
  }

  lemma CommitViews(s: System)
    requires Inv(s) && s.writer.Writer?
    ensures var after := CommitAll(s.entries, s.writer.undo, s.lastTS + 1);
            && (forall ts :: 0 <= ts <= s.lastTS ==> ViewAt(after, ts) == ViewAt(s.entries, ts))
            && ViewAt(after, s.lastTS + 1) == View(s.entries, s.writer.tx)
  {
    CommitChains(s);
    var after, tx := CommitAll(s.entries, s.writer.undo, s.lastTS + 1), s.writer.tx;
    forall ts | 0 <= ts <= s.lastTS ensures ViewAt(after, ts) == ViewAt(s.entries, ts) {
      forall n | n in s.entries ensures ShowsSame(s.entries[n], after[n], Tx(0, ts), Tx(0, ts)) {
        RestampOld(n, s.entries[n], after[n], s.lastTS, s.writer.tx, ts);
      }
      ViewsEqual(s.entries, after, Tx(0, ts), Tx(0, ts));
    }
    forall n | n in s.entries ensures ShowsSame(s.entries[n], after[n], tx, Tx(0, s.lastTS + 1)) {
      RestampNew(n, s.entries[n], after[n], s.lastTS, s.writer.tx);
    }
    ViewsEqual(s.entries, after, tx, Tx(0, s.lastTS + 1));
  }

  lemma CommitKeepsInv(s: System)
    requires Inv(s) && s.writer.Writer? && s.lastTS + 1 < START_TRANSACTION_ID
    ensures Inv(Step(s, Commit))
  {
    CommitChains(s);
    var after := Step(s, Commit);
    forall n | n in after.entries ensures ChainOK(n, after.entries[n], s.lastTS + 1, -1) {
      RestampOK(n, s.entries[n], after.entries[n], s.lastTS, s.writer.tx);
    }
  }

  lemma HistoryAppend(entries: Entries, entries': Entries, lastTS: nat)
    requires forall ts :: 0 <= ts <= lastTS ==> ViewAt(entries', ts) == ViewAt(entries, ts)
    ensures History(entries', lastTS + 1) == History(entries, lastTS) + [ViewAt(entries', lastTS + 1)]
  {
  }

  lemma CommitHistory(s: System)
    requires Inv(s) && s.writer.Writer?
    ensures History(CommitAll(s.entries, s.writer.undo, s.lastTS + 1), s.lastTS + 1) ==
            History(s.entries, s.lastTS) + [View(s.entries, s.writer.tx)]
  {
    var after := CommitAll(s.entries, s.writer.undo, s.lastTS + 1);
    assert forall ts :: 0 <= ts <= s.lastTS ==> ViewAt(after, ts) == ViewAt(s.entries, ts) by { CommitViews(s); }
    HistoryAppend(s.entries, after, s.lastTS);
    assert ViewAt(after, s.lastTS + 1) == View(s.entries, s.writer.tx) by { CommitViews(s); }
  }

  lemma CommitStep(s: System)
    requires Inv(s) && s.writer.Writer? && s.lastTS + 1 < START_TRANSACTION_ID
    ensures Inv(Step(s, Commit))
    ensures Abstract(Step(s, Commit)) ==
            Spec(Abstract(s).history + [Abstract(s).working.view], Idle, s.nextOID)
  {
    CommitKeepsInv(s);
    CommitHistory(s);
  }

  ghost predicate Cut(c: Chain, c': Chain, id: nat) {
    && 0 < |c'| && c' <= c
    && (forall p :: |c'| <= p < |c| ==> c[p].timestamp == id)
    && (forall p :: 0 <= p < |c'| ==> c'[p].timestamp != id)
  }

  lemma CutOK(name: Name, c: Chain, c': Chain, lastTS: nat, id: nat)
    requires ChainOK(name, c, lastTS, id) && Cut(c, c', id)
    ensures ChainOK(name, c', lastTS, -1)
  {
    forall i | 0 <= i < |c'| ensures EntryOK(name, c'[i], lastTS, -1) {
      assert c'[i] == c[i] && EntryOK(name, c[i], lastTS, id);
    }
  }

  lemma CutShowsSame(c: Chain, c': Chain, id: nat, tx: Tx)
    requires Cut(c, c', id) && tx.startTS < id && tx.id != id
    ensures ShowsSame(c, c', tx, tx)
  {
    assert forall i :: 0 <= i < |c'| ==> c'[i] == c[i];
    assert Visible(c, tx) == Visible(c', tx);
  }

  lemma RollbackChains(s: System)
    requires Inv(s) && s.writer.Writer?
    ensures var after := RollbackAll(s.entries, s.writer.undo);
            && after.Keys == s.entries.Keys
            && (forall n :: n in after ==> Cut(s.entries[n], after[n], s.writer.tx.id))
  {
    RollbackAllAt(s.entries, s.writer.undo, s.writer.tx.id);
  }

  lemma RollbackStep(s: System)
    requires Inv(s) && s.writer.Writer?
    ensures var after := Step(s, Rollback);
            && Inv(after)
            && Abstract(after) == Abstract(s).(working := Idle)
  {
    RollbackChains(s);
    var after, id := Step(s, Rollback), s.writer.tx.id;
    forall n | n in after.entries ensures ChainOK(n, after.entries[n], s.lastTS, -1) {
      CutOK(n, s.entries[n], after.entries[n], s.lastTS, id);
    }
    forall ts | 0 <= ts <= s.lastTS ensures ViewAt(after.entries, ts) == ViewAt(s.entries, ts) {
      forall n | n in s.entries ensures ShowsSame(s.entries[n], after.entries[n], Tx(0, ts), Tx(0, ts)) {
        CutShowsSame(s.entries[n], after.entries[n], id, Tx(0, ts));
      }
      ViewsEqual(s.entries, after.entries, Tx(0, ts), Tx(0, ts));
    }
  }

  /** A transaction that wrote nothing sees the committed catalog as of its start. */
  lemma ReaderSeesHistory(s: System, tx: Tx)
    requires Inv(s) && tx.startTS <= s.lastTS && START_TRANSACTION_ID < tx.id
    requires s.writer.Writer? ==> s.writer.tx.id != tx.id
    ensures View(s.entries, tx) == Abstract(s).history[tx.startTS]
  {
    forall n | n in s.entries ensures ShowsSame(s.entries[n], s.entries[n], tx, Tx(0, tx.startTS)) {
      forall i | 0 <= i < |s.entries[n]|
        ensures Sees(s.entries[n][i], tx) == Sees(s.entries[n][i], Tx(0, tx.startTS))
      {
        assert EntryOK(n, s.entries[n][i], s.lastTS, Owner(s.writer));
      }
      assert Visible(s.entries[n], tx) == Visible(s.entries[n], Tx(0, tx.startTS));
    }
    ViewsEqual(s.entries, s.entries, tx, Tx(0, tx.startTS));
  }

  lemma ChainsAnyOwner(entries: Entries, lastTS: nat, owner: int)
    requires ChainsOK(entries, lastTS, -1)
    ensures ChainsOK(entries, lastTS, owner)
  {
    forall n | n in entries ensures ChainOK(n, entries[n], lastTS, owner) {
      forall i | 0 <= i < |entries[n]| ensures EntryOK(n, entries[n][i], lastTS, owner) {
        assert EntryOK(n, entries[n][i], lastTS, -1);
      }
    }
  }

  lemma BeginWriteStep(s: System)
    requires Inv(s) && s.writer.NoWriter?
    ensures Inv(Step(s, BeginWrite))
    ensures Abstract(Step(s, BeginWrite)) == SpecStep(Abstract(s), BeginWrite)
  {
    var after := Step(s, BeginWrite);
    forall n, i | n in s.entries && 0 <= i < |s.entries[n]|
      ensures s.entries[n][i].timestamp != after.writer.tx.id
    {
      assert EntryOK(n, s.entries[n][i], s.lastTS, -1);
    }
    ChainsAnyOwner(s.entries, s.lastTS, Owner(after.writer));
    ReaderSeesHistory(s, after.writer.tx);
  }

  lemma QuietStep(s: System, a: Action)
    requires Inv(s)
    requires a.BeginRead? || a.EndRead? || a.ReserveOID?
    ensures Inv(Step(s, a))
    ensures Abstract(Step(s, a)) == SpecStep(Abstract(s), a)
  {
  }

  // ----- theorems over every run

  ghost predicate Refines(s: System, a: Action)
    requires Inv(s)
  {
    Inv(Step(s, a)) && Abstract(Step(s, a)) == SpecStep(Abstract(s), a)
  }

  lemma WithNextOID(s: System, oid: nat)
    requires Inv(s)
    ensures Inv(s.(nextOID := oid)) && Abstract(s.(nextOID := oid)) == Abstract(s).(nextOID := oid)
  {
  }

  lemma CreateRefines(s: System, a: Action)
    requires Inv(s) && a.Create?
    ensures Refines(s, a)
  {
    if s.writer.Writer? && !a.kind.DummyEntry? {
      var c := Content(a.kind, a.name, s.nextOID, a.hasParent, a.payload);
      var after := Apply(s, CreateIn(s.entries, s.writer.tx, c));
      assert Inv(after) && Abstract(after) == (
          if a.name in Abstract(s).working.view then Abstract(s)
          else Abstract(s).(working := Working(Abstract(s).working.view[a.name := c]))) by {
        CreateStep(s, c);
      }
      WithNextOID(after, s.nextOID + 1);
      CreateSteps(s, a, c);
    }
  }

  /** Both steps of a create, written out. */
  lemma CreateSteps(s: System, a: Action, c: Content)
    requires Inv(s) && a.Create? && s.writer.Writer? && !a.kind.DummyEntry?
    requires c == Content(a.kind, a.name, s.nextOID, a.hasParent, a.payload)
    ensures Step(s, a) == Apply(s, CreateIn(s.entries, s.writer.tx, c)).(nextOID := s.nextOID + 1)
    ensures SpecStep(Abstract(s), a) ==
            (if a.name in Abstract(s).working.view then Abstract(s)
             else Abstract(s).(working := Working(Abstract(s).working.view[a.name := c]))).(nextOID := s.nextOID + 1)
  {
  }

  lemma DropRefines(s: System, a: Action)
    requires Inv(s) && a.Drop?
    ensures Refines(s, a)
  {
    if s.writer.Writer? { DropStep(s, a.name, VisibleOID(s.entries, s.writer.tx, a.name)); }
  }

  lemma AlterRefines(s: System, a: Action)
    requires Inv(s) && a.Alter?
    ensures Refines(s, a)
  {
    if s.writer.Writer? { AlterStep(s, a.name, a.payload); }
  }

  lemma RenameRefines(s: System, a: Action)
    requires Inv(s) && a.Rename?
    ensures Refines(s, a)
  {
    if s.writer.Writer? && a.newName !in View(s.entries, s.writer.tx) { RenameStep(s, a.name, a.newName); }
  }

  lemma EndRefines(s: System, a: Action)
    requires Inv(s) && (a.Commit? || a.Rollback?)
    ensures Refines(s, a)
  {
    if s.writer.Writer? {
      if a.Rollback? { RollbackStep(s); }
      else if s.lastTS + 1 < START_TRANSACTION_ID { CommitStep(s); }
    }
  }

  /** Every step of the chains is a step of the history. */
  lemma StepRefines(s: System, a: Action)
    requires Inv(s)
    ensures Inv(Step(s, a))
    ensures Abstract(Step(s, a)) == SpecStep(Abstract(s), a)
  {
    assert Refines(s, a) by {
      match a
      case Create(_, _, _, _) => CreateRefines(s, a);
      case Drop(_) => DropRefines(s, a);
      case Alter(_, _, _) => AlterRefines(s, a);
      case Rename(_, _) => RenameRefines(s, a);
      case Commit => EndRefines(s, a);
      case Rollback => EndRefines(s, a);
      case BeginWrite => if s.writer.NoWriter? { BeginWriteStep(s); }
      case _ => QuietStep(s, a);
    }
  }

  ghost function Run(s: System, actions: seq<Action>): (r: System)
    requires Inv(s)
    ensures Inv(r)
    decreases |actions|
  {
    if actions == [] then s
    else
      StepRefines(s, actions[0]);
      Run(Step(s, actions[0]), actions[1..])
  }

  function SpecRun(t: Spec, actions: seq<Action>): (r: Spec)
    requires |t.history| > 0
    ensures |r.history| > 0
    decreases |actions|
  {
    if actions == [] then t else SpecRun(SpecStep(t, actions[0]), actions[1..])
  }

  /** A loaded catalog: one committed entry per name, no transaction yet. */
  ghost predicate Initial(s: System) {
    && s.lastTS == 1 && s.lastID == START_TRANSACTION_ID && s.readers == {} && s.writer.NoWriter?
    && forall n :: n in s.entries ==>
         && |s.entries[n]| == 1
         && s.entries[n][0].timestamp == 0
         && s.entries[n][0].content.name == n
         && !s.entries[n][0].deleted && !s.entries[n][0].content.kind.DummyEntry?
  }

  lemma InitialInv(s: System)
    requires Initial(s)
    ensures Inv(s) && Marked(s.entries)
  {
  }

  /** Every run of the version chains is a run over plain maps. */
  lemma {:induction false} RunRefines(s: System, actions: seq<Action>)
    requires Inv(s)
    ensures Abstract(Run(s, actions)) == SpecRun(Abstract(s), actions)
    decreases |actions|
  {
    if actions != [] {
      StepRefines(s, actions[0]);
      RunRefines(Step(s, actions[0]), actions[1..]);
    }
  }

  // ----- snapshot stability

  lemma {:induction false} HistoryGrows(t: Spec, actions: seq<Action>)
    requires |t.history| > 0
    ensures t.history <= SpecRun(t, actions).history
    decreases |actions|
  {
    if actions != [] { HistoryGrows(SpecStep(t, actions[0]), actions[1..]); }
  }

  lemma StepIDs(s: System, a: Action)
    requires NonEmptyChains(s.entries)
    ensures var r := Step(s, a);
            && s.lastID <= r.lastID && s.lastTS <= r.lastTS
            && (r.writer.Writer? ==> r.writer.tx.id > s.lastID || (s.writer.Writer? && r.writer.tx == s.writer.tx))
  {
  }

  /** Identifiers only grow, so a later writer is never confused with an earlier transaction. */
  lemma {:induction false} WriterIDs(s: System, actions: seq<Action>)
    requires Inv(s)
    ensures var r := Run(s, actions);
            && s.lastID <= r.lastID && s.lastTS <= r.lastTS
            && (r.writer.Writer? ==>
                  r.writer.tx.id > s.lastID || (s.writer.Writer? && r.writer.tx.id == s.writer.tx.id))
    decreases |actions|
  {
    if actions != [] {
      StepIDs(s, actions[0]);
      StepRefines(s, actions[0]);
      WriterIDs(Step(s, actions[0]), actions[1..]);
    }
  }

  /** Whatever happens after a transaction began, what it sees of others' work never changes. */
  lemma SnapshotStable(s: System, actions: seq<Action>, tx: Tx)
    requires Inv(s) && TxOK(tx, s.lastTS, s.lastID)
    requires s.writer.Writer? ==> tx.id != s.writer.tx.id
    ensures View(Run(s, actions).entries, tx) == View(s.entries, tx)
  {
    var r := Run(s, actions);
    WriterIDs(s, actions);
    RunRefines(s, actions);
    HistoryGrows(Abstract(s), actions);
    ReaderSeesHistory(s, tx);
    ReaderSeesHistory(r, tx);
  }

  /** In every reachable state, every transaction finds an entry in every chain. */
  lemma TraversalFinds(s: System, n: Name, tx: Tx)
    requires Inv(s) && n in s.entries
    ensures Visible(s.entries[n], tx) >= 0
  {
    assert Sees(s.entries[n][0], tx);
  }

  // ----- the shape of the chains

  ghost predicate ChainOrdered(chain: Chain) {
    forall i, j :: 0 <= i < j < |chain| ==> chain[i].timestamp <= chain[j].timestamp
  }

  ghost predicate Ordered(entries: Entries) {
    forall n :: n in entries ==> ChainOrdered(entries[n])
  }

  lemma PushOrdered(s: System, e: Entry)
    requires Inv(s) && Ordered(s.entries) && s.writer.Writer? && e.timestamp == s.writer.tx.id
    ensures Ordered(Push(s.entries, e))
  {
    var n := e.content.name;
    if n in s.entries {
      forall i | 0 <= i < |s.entries[n]| ensures s.entries[n][i].timestamp <= e.timestamp {
        assert EntryOK(n, s.entries[n][i], s.lastTS, Owner(s.writer));
      }
    }
  }

  lemma CreateOrdered(s: System, c: Content)
    requires Inv(s) && Ordered(s.entries) && s.writer.Writer?
    ensures Ordered(CreateIn(s.entries, s.writer.tx, c).entries)
  {
    BaseStep(s, c.name, c.oid);
    PushOrdered(s.(entries := WithBase(s.entries, c.name, c.oid)), Entry(c, s.writer.tx.id, false));
  }

  lemma RenameOrdered(s: System, name: Name, newName: Name)
    requires Inv(s) && Ordered(s.entries) && s.writer.Writer?
    requires name in View(s.entries, s.writer.tx)
    ensures Ordered(RenameIn(s.entries, s.writer.tx, name, newName).entries)
  {
    AfterDropOK(s, name);
    PushOrdered(s, DummyOf(name, s.entries[name][|s.entries[name]| - 1].content.oid, s.writer.tx.id));
    CreateOrdered(AfterDrop(s, name), View(s.entries, s.writer.tx)[name].(name := newName));
  }

  lemma CommitOrdered(s: System)
    requires Inv(s) && Ordered(s.entries) && s.writer.Writer?
    ensures Ordered(CommitAll(s.entries, s.writer.undo, s.lastTS + 1))
  {
    CommitChains(s);
    var after := CommitAll(s.entries, s.writer.undo, s.lastTS + 1);
    forall n | n in after ensures ChainOrdered(after[n]) {
      var c := s.entries[n];
      assert ChainOrdered(c) && Restamped(c, after[n], s.writer.tx.id, s.lastTS + 1);
      forall i | 0 <= i < |c| ensures after[n][i].timestamp <= s.lastTS + 1 {
        assert EntryOK(n, c[i], s.lastTS, Owner(s.writer));
      }
    }
  }

  lemma StepOrdered(s: System, a: Action)
    requires Inv(s) && Ordered(s.entries)
    ensures Ordered(Step(s, a).entries)
  {
    if s.writer.Writer? {
      var tx := s.writer.tx;
      match a
      case Create(kind, name, hasParent, payload) =>
        CreateOrdered(s, Content(kind, name, s.nextOID, hasParent, payload));
      case Drop(name) => PushOrdered(s, DummyOf(name, VisibleOID(s.entries, tx, name), tx.id));
      case Alter(name, payload, _) =>
        if name in View(s.entries, tx) {
          PushOrdered(s, Entry(View(s.entries, tx)[name].(payload := payload), tx.id, false));
        }
      case Rename(name, newName) =>
        if name in View(s.entries, tx) { RenameOrdered(s, name, newName); }
      case Commit => CommitOrdered(s);
      case Rollback => RollbackChains(s);
      case _ =>
    }
  }

  /** In every reachable state a chain is committed entries in commit order with the writer's block on
      top, and every transaction finds an entry in it. */
  lemma {:induction false} ChainShape(s: System, actions: seq<Action>, n: Name, tx: Tx)
    requires Inv(s) && Ordered(s.entries)
    requires n in Run(s, actions).entries
    ensures var r := Run(s, actions);
            var chain := r.entries[n];
            && ChainOrdered(chain)
            && (forall i :: 0 <= i < |chain| ==>
                  chain[i].timestamp <= r.lastTS || chain[i].timestamp == Owner(r.writer))
            && (forall i, j :: 0 <= i < j < |chain| && chain[i].timestamp == Owner(r.writer) ==>
                  chain[j].timestamp == Owner(r.writer))
            && Visible(chain, tx) >= 0
    decreases |actions|
  {
    if actions == [] {
      var chain := s.entries[n];
      TraversalFinds(s, n, tx);
      assert forall i :: 0 <= i < |chain| ==> EntryOK(n, chain[i], s.lastTS, Owner(s.writer));
    } else {
      StepOrdered(s, actions[0]);
      StepRefines(s, actions[0]);
      ChainShape(Step(s, actions[0]), actions[1..], n, tx);
    }
  }

  // ----- tombstones

  /** A deleted entry lies on the entry it deletes and carries its object identifier. */
  ghost predicate ChainMarked(chain: Chain) {
    forall i :: 0 < i < |chain| && chain[i].deleted ==>
      !chain[i - 1].deleted && chain[i].content.oid == chain[i - 1].content.oid
  }

  ghost predicate Marked(entries: Entries) {
    forall n :: n in entries ==> ChainMarked(entries[n])
  }

  lemma PushMarked(entries: Entries, e: Entry)
    requires Marked(entries) && NonEmptyChains(entries)
    requires e.deleted ==> e.content.name in entries
                           && var head := entries[e.content.name][|entries[e.content.name]| - 1];
                              !head.deleted && head.content.oid == e.content.oid
    ensures Marked(Push(entries, e))
  {
  }

  lemma CreateMarked(s: System, c: Content)
    requires Inv(s) && Marked(s.entries) && s.writer.Writer?
    ensures Marked(CreateIn(s.entries, s.writer.tx, c).entries)
  {
    PushMarked(WithBase(s.entries, c.name, c.oid), Entry(c, s.writer.tx.id, false));
  }

  lemma DropMarked(s: System, name: Name)
    requires Inv(s) && Marked(s.entries) && s.writer.Writer? && name in View(s.entries, s.writer.tx)
    ensures Marked(Push(s.entries, DummyOf(name, View(s.entries, s.writer.tx)[name].oid, s.writer.tx.id)))
  {
    WriterSeesHead(s, name);
    PushMarked(s.entries, DummyOf(name, View(s.entries, s.writer.tx)[name].oid, s.writer.tx.id));
  }

  lemma RenameMarked(s: System, name: Name, newName: Name)
    requires Inv(s) && Marked(s.entries) && s.writer.Writer? && name in View(s.entries, s.writer.tx)
    ensures Marked(RenameIn(s.entries, s.writer.tx, name, newName).entries)
  {
    DropMarked(s, name);
    AfterDropOK(s, name);
    CreateMarked(AfterDrop(s, name), View(s.entries, s.writer.tx)[name].(name := newName));
  }

  lemma CommitMarked(s: System)
    requires Inv(s) && Marked(s.entries) && s.writer.Writer?
    ensures Marked(CommitAll(s.entries, s.writer.undo, s.lastTS + 1))
  {
    CommitChains(s);
    var after := CommitAll(s.entries, s.writer.undo, s.lastTS + 1);
    forall n | n in after ensures ChainMarked(after[n]) {
      assert Restamped(s.entries[n], after[n], s.writer.tx.id, s.lastTS + 1);
      assert ChainMarked(s.entries[n]);
    }
  }

  lemma RollbackMarked(s: System)
    requires Inv(s) && Marked(s.entries) && s.writer.Writer?
    ensures Marked(RollbackAll(s.entries, s.writer.undo))
  {
    RollbackChains(s);
  }

  lemma StepMarked(s: System, a: Action)
    requires Inv(s) && Marked(s.entries)
    ensures Marked(Step(s, a).entries)
  {
    if s.writer.Writer? {
      var tx := s.writer.tx;
      match a
      case Create(kind, name, hasParent, payload) =>
        CreateMarked(s, Content(kind, name, s.nextOID, hasParent, payload));
      case Drop(name) =>
        if name in View(s.entries, tx) { DropMarked(s, name); }
      case Alter(name, payload, _) =>
        if name in View(s.entries, tx) {
          PushMarked(s.entries, Entry(View(s.entries, tx)[name].(payload := payload), tx.id, false));
        }
      case Rename(name, newName) =>
        if name in View(s.entries, tx) { RenameMarked(s, name, newName); }
      case Commit => CommitMarked(s);
      case Rollback => RollbackMarked(s);
      case _ =>
    }
  }

  /** In every reachable state every tombstone carries the identifier of the entry it deletes. */
  lemma {:induction false} RunMarked(s: System, actions: seq<Action>)
    requires Inv(s) && Marked(s.entries)
    ensures Marked(Run(s, actions).entries)
    decreases |actions|
  {
    if actions != [] {
      StepMarked(s, actions[0]);
      StepRefines(s, actions[0]);
      RunMarked(Step(s, actions[0]), actions[1..]);
    }
  }

  // ----- rollback and commit

  lemma {:induction false} NoCommitNoHistory(t: Spec, actions: seq<Action>)
    requires |t.history| > 0 && Commit !in actions
    ensures SpecRun(t, actions).history == t.history
    decreases |actions|
  {
    if actions != [] {
      assert actions[0] in actions;
      NoCommitNoHistory(SpecStep(t, actions[0]), actions[1..]);
    }
  }

  lemma {:induction false} SpecRunSnoc(t: Spec, actions: seq<Action>, a: Action)
    requires |t.history| > 0
    ensures SpecRun(t, actions + [a]) == SpecStep(SpecRun(t, actions), a)
    decreases |actions|
  {
    if actions == [] {
      assert [a][1..] == [];
    } else {
      assert (actions + [a])[0] == actions[0] && (actions + [a])[1..] == actions[1..] + [a];
      SpecRunSnoc(SpecStep(t, actions[0]), actions[1..], a);
    }
  }

  /** Rolling back undoes everything since the writer began, for every transaction there is or will be,
      whatever the writer and other transactions did in between. */
  lemma RollbackUndoes(s: System, actions: seq<Action>, tx: Tx)
    requires Inv(s) && s.writer.NoWriter?
    requires Commit !in actions
    requires START_TRANSACTION_ID < tx.id && tx.startTS <= s.lastTS
    ensures var r := Run(s, [BeginWrite] + actions + [Rollback]);
            r.writer.NoWriter? && r.lastTS == s.lastTS && View(r.entries, tx) == View(s.entries, tx)
  {
    var all := [BeginWrite] + actions + [Rollback];
    var r := Run(s, all);
    RunRefines(s, all);
    NoCommitNoHistory(Abstract(s), all);
    SpecRunSnoc(Abstract(s), [BeginWrite] + actions, Rollback);
    assert Abstract(r).working.Idle?;
    ReaderSeesHistory(s, tx);
    ReaderSeesHistory(r, tx);
  }

  /** Commit is atomic: transactions that began before see what they saw, and every later one sees the
      writer's final view. */
  lemma CommitAtomic(s: System, tx: Tx)
    requires Inv(s) && s.writer.Writer? && s.lastTS + 1 < START_TRANSACTION_ID
    requires START_TRANSACTION_ID < tx.id != s.writer.tx.id && tx.startTS <= s.lastTS + 1
    ensures View(Step(s, Commit).entries, tx) ==
            if tx.startTS <= s.lastTS then View(s.entries, tx) else View(s.entries, s.writer.tx)
  {
    var r := Step(s, Commit);
    CommitStep(s);
    ReaderSeesHistory(r, tx);
    if tx.startTS <= s.lastTS {
      ReaderSeesHistory(s, tx);
      assert Abstract(r).history[tx.startTS] == Abstract(s).history[tx.startTS];
    }
  }

  lemma RunTwo(s: System, a: Action, b: Action)
    requires Inv(s)
    ensures Abstract(Run(s, [a, b])) == SpecStep(SpecStep(Abstract(s), a), b)
  {
    RunRefines(s, [a, b]);
    var t := Abstract(s);
    assert [a, b][1..] == [b] && [b][1..] == [];
    assert SpecRun(SpecStep(t, a), [b]) == SpecRun(SpecStep(SpecStep(t, a), b), []);
  }

  /** A committed rename appears as a whole: the old name gone and the new name bound to the same object. */
  lemma RenameAtomic(s: System, name: Name, newName: Name, tx: Tx)
    requires Inv(s) && s.writer.Writer? && s.lastTS + 1 < START_TRANSACTION_ID
    requires START_TRANSACTION_ID < tx.id != s.writer.tx.id && tx.startTS <= s.lastTS + 1
    requires name in View(s.entries, s.writer.tx) && newName !in View(s.entries, s.writer.tx)
    ensures var r := Run(s, [Rename(name, newName), Commit]);
            var mine, seen := View(s.entries, s.writer.tx), View(r.entries, tx);
            if tx.startTS <= s.lastTS then seen == View(s.entries, tx)
            else name !in seen && newName in seen && seen[newName] == mine[name].(name := newName)
  {
    var r := Run(s, [Rename(name, newName), Commit]);
    RenameHistory(s, name, newName);
    ReaderSeesHistory(r, tx);
    if tx.startTS <= s.lastTS { ReaderSeesHistory(s, tx); }
  }

  lemma RenameHistory(s: System, name: Name, newName: Name)
    requires Inv(s) && s.writer.Writer? && s.lastTS + 1 < START_TRANSACTION_ID
    requires name in View(s.entries, s.writer.tx) && newName !in View(s.entries, s.writer.tx)
    ensures var r, mine := Run(s, [Rename(name, newName), Commit]), View(s.entries, s.writer.tx);
            && r.writer.NoWriter?
            && Abstract(r).history == Abstract(s).history + [(mine - {name})[newName := mine[name].(name := newName)]]
  {
    RunTwo(s, Rename(name, newName), Commit);
    SpecRenamed(Abstract(s), name, newName);
  }

  lemma SpecRenamed(t: Spec, name: Name, newName: Name)
    requires 0 < |t.history| < START_TRANSACTION_ID && t.working.Working?
    requires name in t.working.view && newName !in t.working.view
    ensures var r, mine := SpecStep(SpecStep(t, Rename(name, newName)), Commit), t.working.view;
            && r.working.Idle?
            && r.history == t.history + [(mine - {name})[newName := mine[name].(name := newName)]]
  {
  }

  // ----- object identifiers

  ghost predicate DistinctOIDs(view: Snapshot, nextOID: nat) {
    && (forall n :: n in view ==> view[n].oid < nextOID)
    && (forall n, m :: n in view && m in view && n != m ==> view[n].oid != view[m].oid)
  }

  ghost predicate SpecOIDs(t: Spec) {
    && (forall ts :: 0 <= ts < |t.history| ==> DistinctOIDs(t.history[ts], t.nextOID))
    && (t.working.Working? ==> DistinctOIDs(t.working.view, t.nextOID))
  }

  lemma OIDStep(t: Spec, a: Action)
    requires |t.history| > 0 && SpecOIDs(t)
    ensures SpecOIDs(SpecStep(t, a))
  {
  }

  lemma {:induction false} OIDRun(t: Spec, actions: seq<Action>)
    requires |t.history| > 0 && SpecOIDs(t)
    ensures SpecOIDs(SpecRun(t, actions))
    decreases |actions|
  {
    if actions != [] {
      OIDStep(t, actions[0]);
      OIDRun(SpecStep(t, actions[0]), actions[1..]);
    }
  }

  /** In every snapshot of every reachable state, different names have different object identifiers. */
  lemma OIDsUnique(s: System, actions: seq<Action>, tx: Tx)
    requires Initial(s) && DistinctOIDs(ViewAt(s.entries, 0), s.nextOID)
    requires START_TRANSACTION_ID < tx.id
    ensures Inv(s)
    ensures var r := Run(s, actions);
            tx.startTS <= r.lastTS && (r.writer.Writer? && r.writer.tx.id == tx.id ==> r.writer.tx == tx)
            ==> DistinctOIDs(View(r.entries, tx), r.nextOID)
  {
    InitialInv(s);
    var r := Run(s, actions);
    forall ts | 0 <= ts <= s.lastTS ensures ViewAt(s.entries, ts) == ViewAt(s.entries, 0) {
      assert forall n :: n in s.entries ==> Visible(s.entries[n], Tx(0, ts)) == 0 == Visible(s.entries[n], Tx(0, 0));
    }
    OIDRun(Abstract(s), actions);
    RunRefines(s, actions);
    if tx.startTS <= r.lastTS && !(r.writer.Writer? && r.writer.tx.id == tx.id) {
      ReaderSeesHistory(r, tx);
    }
  }
}
