/** How a connection runs statements in transactions: the transaction manager, the connection's transaction
    context, and the prepare and execute steps.  Code outside the protocol either returns or throws; other
    connections may begin and end transactions of their own between any two steps. */
module TransactionProtocol {
  import opened Basics

  datatype Mode = Auto | Manual
  datatype Action = BeginRead | BeginWrite | Commit | Rollback | Checkpoint
  datatype Statement = TxStatement(action: Action) | Query(readOnly: bool)
  datatype CommitAction = NotCommit | CommitIfNew | CommitIfAuto | CommitNewOrAuto

  /** How a call ends: it returns, it throws, or it throws because a checkpoint failed. */
  datatype Outcome = Ok | Failed | CheckpointFailed
  datatype Fate = Committed | RolledBack

  /** A transaction: the connection it belongs to, and whether it may write. */
  datatype Tx = Tx(owner: nat, write: bool)

  /** A step of another connection. */
  datatype Move = Begins(owner: nat, write: bool) | Ends(owner: nat, id: nat, fate: Fate)

  /** Which calls outside the protocol throw: reading the statement's kind, binding and planning it, mapping the plan
      of a transaction statement, mapping and running a query, writing a commit, and the checkpoint that follows a
      commit or is asked for.  Then the steps other connections take, at each point of the statement. */
  datatype World = World(
    analyze: bool, bind: bool, mapping: bool, work: bool, commit: bool, checkpoint: bool, moves: nat -> seq<Move>)

  /** The other connections take no step. */
  ghost predicate Quiet(world: World) {
    forall k :: 0 <= k ==> world.moves(k) == []
  }

  predicate HasWriter(active: map<nat, Tx>) {
    exists id :: id in active && active[id].write
  }

  ghost predicate OneWriter(active: map<nat, Tx>) {
    forall a, b :: a in active && b in active && active[a].write && active[b].write ==> a == b
  }

  class TransactionManager {
    const multiWrites: bool
    var active: map<nat, Tx>
    var lastID: nat
    /** Every transaction there ever was, and how the ones that are no longer active ended. */
    ghost var owners: map<nat, nat>
    ghost var fates: map<nat, Fate>

    ghost predicate Valid()
      reads this
    {
      && (forall id :: id in owners <==> id in active || id in fates)
      && (forall id :: id in active ==> id !in fates && active[id].owner == owners[id])
      && (forall id :: id in owners ==> id <= lastID)
      && (!multiWrites ==> OneWriter(active))
    }

    /** The open transactions of one connection, and how its other ones ended. */
    ghost function Mine(me: nat): (r: map<nat, Tx>)
      reads this
    {
      map id | id in active && active[id].owner == me :: active[id]
    }

    ghost function MyFates(me: nat): (r: map<nat, Fate>)
      reads this
    {
      map id | id in fates && id in owners && owners[id] == me :: fates[id]
    }

    /** The open transactions of all other connections. */
    ghost function Rest(me: nat): (r: map<nat, Tx>)
      reads this
    {
      map id | id in active && active[id].owner != me :: active[id]
    }

    constructor (multiWrites: bool)
      ensures Valid() && active == map[] && fates == map[] && this.multiWrites == multiWrites
    {
      this.multiWrites := multiWrites;
      active, lastID, owners, fates := map[], 0, map[], map[];
    }

    method BeginTransaction(me: nat, write: bool) returns (id: Option<nat>)
      requires Valid()
      modifies this
      ensures Valid()
      ensures id.None? <==> write && !multiWrites && HasWriter(old(active))
      ensures id.None? ==> active == old(active) && fates == old(fates) && owners == old(owners)
      ensures id.Some? ==> id.value !in old(owners) && active == old(active)[id.value := Tx(me, write)]
      ensures id.Some? ==> fates == old(fates) && owners == old(owners)[id.value := me]
    {
      if write && !multiWrites && HasWriter(active) { return None; }
      lastID := lastID + 1;
      active, owners := active[lastID := Tx(me, write)], owners[lastID := me];
      id := Some(lastID);
    }

    /** A failed commit leaves the transaction open; a failed checkpoint comes after it was committed and closed. */
    method CommitTx(id: nat, commitThrows: bool, checkpointThrows: bool) returns (o: Outcome)
      requires Valid() && id in active
      modifies this
      ensures Valid() && owners == old(owners)
      ensures o == if !old(active)[id].write then Ok else if commitThrows then Failed
                   else if checkpointThrows then CheckpointFailed else Ok
      ensures o == Failed ==> active == old(active) && fates == old(fates)
      ensures o != Failed ==> active == old(active) - {id} && fates == old(fates)[id := Committed]
    {
      var write := active[id].write;
      if write && commitThrows { return Failed; }
      EndTx(id, Committed);
      o := if write && checkpointThrows then CheckpointFailed else Ok;
    }

    method RollbackTx(id: nat)
      requires Valid() && id in active
      modifies this
      ensures Valid() && owners == old(owners)
      ensures active == old(active) - {id} && fates == old(fates)[id := RolledBack]
    {
      EndTx(id, RolledBack);
    }

    /** Steps of the other connections. */
    method Interleave(me: nat, moves: seq<Move>)
      requires Valid()
      modifies this
      ensures Valid() && Mine(me) == old(Mine(me)) && MyFates(me) == old(MyFates(me))
      ensures moves == [] ==> active == old(active)
    {
      for k := 0 to |moves|
        invariant Valid() && Mine(me) == old(Mine(me)) && MyFates(me) == old(MyFates(me))
        invariant moves == [] ==> active == old(active)
      {
        if moves[k].owner != me { Other(me, moves[k]); }
      }
    }

    method Other(ghost me: nat, move: Move)
      requires Valid() && move.owner != me
      modifies this
      ensures Valid() && Mine(me) == old(Mine(me)) && MyFates(me) == old(MyFates(me))
    {
      match move
      case Begins(owner, write) => OtherBegins(me, owner, write);
      case Ends(owner, id, fate) =>
        if id in active && active[id].owner == owner { OtherEnds(me, id, fate); }
    }

    method OtherBegins(ghost me: nat, owner: nat, write: bool)
      requires Valid() && owner != me
      modifies this
      ensures Valid() && Mine(me) == old(Mine(me)) && MyFates(me) == old(MyFates(me))
    {
      var id := BeginTransaction(owner, write);
    }

    method OtherEnds(ghost me: nat, id: nat, fate: Fate)
      requires Valid() && id in active && active[id].owner != me
      modifies this
      ensures Valid() && Mine(me) == old(Mine(me)) && MyFates(me) == old(MyFates(me))
    {
      EndTx(id, fate);
    }

    method EndTx(id: nat, fate: Fate)
      requires Valid() && id in active
      modifies this
      ensures Valid() && owners == old(owners)
      ensures active == old(active) - {id} && fates == old(fates)[id := fate]
    {
      active, fates := active - {id}, fates[id := fate];
    }
  }

  class TransactionContext {
    const me: nat
    const manager: TransactionManager
    var mode: Mode
    var activeTransaction: Option<nat>

    /** The connection's open transaction is the one it knows of, and there is no other. */
    ghost predicate Valid()
      reads this, manager
    {
      && manager.Valid()
      && manager.Mine(me).Keys == (if activeTransaction.Some? then {activeTransaction.value} else {})
    }

    /** Between statements: manual mode and an open transaction go together. */
    ghost predicate Settled()
      reads this, manager
    {
      Valid() && (mode == Manual <==> activeTransaction.Some?)
    }

    constructor (me: nat, manager: TransactionManager)
      requires manager.Valid() && manager.Mine(me) == map[]
      ensures Settled() && mode == Auto && this.me == me && this.manager == manager
    {
      this.me, this.manager := me, manager;
      mode, activeTransaction := Auto, None;
    }

    predicate HasActiveTransaction()
      reads this
    {
      activeTransaction.Some?
    }

    /** The open transaction is read-only. */
    predicate IsReadOnly()
      requires HasActiveTransaction() && activeTransaction.value in manager.active
      reads this, manager
    {
      !manager.active[activeTransaction.value].write
    }

    method Others(moves: seq<Move>)
      requires Valid()
      modifies manager
      ensures Valid() && manager.Mine(me) == old(manager.Mine(me)) && manager.MyFates(me) == old(manager.MyFates(me))
      ensures moves == [] ==> manager.active == old(manager.active)
    {
      manager.Interleave(me, moves);
    }

    /** The mode changes before the manager is asked: a refusal leaves manual mode without a transaction. */
    method BeginManual(write: bool) returns (o: Outcome)
      requires Settled() && !HasActiveTransaction()
      modifies this, manager
      ensures Valid() && manager.MyFates(me) == old(manager.MyFates(me)) && mode == Manual
      ensures o == if write && !manager.multiWrites && HasWriter(old(manager.active)) then Failed else Ok
      ensures Settled() <==> !(write && !manager.multiWrites && HasWriter(old(manager.active)))
      ensures o == Ok ==> HasActiveTransaction() && manager.Mine(me)[activeTransaction.value] == Tx(me, write)
      ensures manager.Rest(me) == old(manager.Rest(me))
    {
      mode := Manual;
      o := BeginInternal(write);
    }

    method BeginAuto(readOnly: bool) returns (o: Outcome)
      requires Valid() && !HasActiveTransaction()
      modifies this, manager
      ensures Valid() && manager.MyFates(me) == old(manager.MyFates(me)) && mode == old(mode)
      ensures o == if !readOnly && !manager.multiWrites && HasWriter(old(manager.active)) then Failed else Ok
      ensures o == Ok <==> HasActiveTransaction()
      ensures manager.Rest(me) == old(manager.Rest(me))
      ensures o == Ok ==> Writes(!readOnly)
    {
      o := BeginInternal(!readOnly);
    }

    method BeginInternal(write: bool) returns (o: Outcome)
      requires Valid() && !HasActiveTransaction()
      modifies this`activeTransaction, manager
      ensures Valid() && manager.MyFates(me) == old(manager.MyFates(me))
      ensures o == if write && !manager.multiWrites && HasWriter(old(manager.active)) then Failed else Ok
      ensures o == Ok <==> HasActiveTransaction()
      ensures o == Ok ==> manager.Mine(me)[activeTransaction.value] == Tx(me, write)
      ensures manager.Rest(me) == old(manager.Rest(me))
    {
      activeTransaction := manager.BeginTransaction(me, write);
      o := if activeTransaction.None? then Failed else Ok;
    }

    /** When the checkpoint fails, the manager has closed the transaction and the context still points to it. */
    method CommitActive(world: World) returns (o: Outcome)
      requires Valid()
      modifies this, manager
      ensures manager.Valid() && (o != CheckpointFailed ==> Valid())
      ensures o == CheckpointFailed ==> manager.Mine(me) == map[]
      ensures o != Ok ==> old(activeTransaction).Some? && (mode, activeTransaction) == old((mode, activeTransaction))
      ensures o == Ok ==> activeTransaction == None && mode == if old(activeTransaction).Some? then Auto else old(mode)
      ensures manager.MyFates(me) == if o == Failed || old(activeTransaction).None? then old(manager.MyFates(me))
                                     else old(manager.MyFates(me))[old(activeTransaction).value := Committed]
      ensures manager.Rest(me) == old(manager.Rest(me))
      ensures old(Writes(false)) ==> o == Ok
    {
      if !HasActiveTransaction() { return Ok; }
      o := CommitOpen(activeTransaction.value, world);
      if o == Ok { ClearTransaction(); }
    }

    /** What the manager does to this connection's transactions. */
    method CommitOpen(id: nat, world: World) returns (o: Outcome)
      requires Valid() && activeTransaction == Some(id)
      modifies manager
      ensures manager.Valid() && manager.Rest(me) == old(manager.Rest(me))
      ensures manager.Mine(me) == if o == Failed then old(manager.Mine(me)) else map[]
      ensures manager.MyFates(me) == if o == Failed then old(manager.MyFates(me))
                                     else old(manager.MyFates(me))[id := Committed]
      ensures old(Writes(false)) ==> o == Ok
    {
      assert id in manager.Mine(me);
      o := manager.CommitTx(id, world.commit, world.checkpoint);
    }

    method RollbackActive()
      requires Valid()
      modifies this, manager
      ensures Valid() && !HasActiveTransaction()
      ensures mode == if old(activeTransaction).Some? then Auto else old(mode)
      ensures manager.MyFates(me) == if old(activeTransaction).None? then old(manager.MyFates(me))
                                     else old(manager.MyFates(me))[old(activeTransaction).value := RolledBack]
      ensures manager.Rest(me) == old(manager.Rest(me))
    {
      if !HasActiveTransaction() { return; }
      manager.RollbackTx(activeTransaction.value);
      ClearTransaction();
    }

    method ClearTransaction()
      modifies this
      ensures mode == Auto && activeTransaction == None
    {
      activeTransaction, mode := None, Auto;
    }

    // ----- running a function in a transaction

    /** The transaction operator: it checks that a transaction is open or not, as the action needs, and acts. */
    method Perform(action: Action, world: World) returns (o: Outcome)
      requires Settled()
      modifies this, manager
      ensures manager.Valid() && (o != CheckpointFailed ==> Valid())
      ensures o == CheckpointFailed ==> manager.Mine(me) == map[]
      ensures old(activeTransaction).Some? ==>
                Concluded(action, o, old(activeTransaction).value, old(manager.MyFates(me)))
      ensures old(activeTransaction).None? ==>
                Started(action, o, world) && manager.MyFates(me) == old(manager.MyFates(me))
      ensures manager.Rest(me) == old(manager.Rest(me))
      ensures old(activeTransaction).None? && action == BeginWrite ==>
                (o == Failed <==> !manager.multiWrites && HasWriter(old(manager.active)))
    {
      match action
      case BeginRead =>
        if HasActiveTransaction() { return Failed; }
        o := BeginManual(false);
      case BeginWrite =>
        if HasActiveTransaction() { return Failed; }
        o := BeginManual(true);
      case Commit =>
        if !HasActiveTransaction() { return Failed; }
        o := CommitActive(world);
      case Rollback =>
        if !HasActiveTransaction() { return Failed; }
        RollbackActive();
        o := Ok;
      case Checkpoint =>
        if HasActiveTransaction() { return Failed; }
        o := if world.checkpoint then CheckpointFailed else Ok;
    }

    /** What an action leaves behind when a transaction was open. */
    ghost predicate Concluded(action: Action, o: Outcome, id: nat, fates: map<nat, Fate>)
      reads this, manager
    {
      match action
      case Rollback =>
        o == Ok && mode == Auto && activeTransaction == None && manager.MyFates(me) == fates[id := RolledBack]
      case Commit =>
        if o == Ok then mode == Auto && activeTransaction == None && manager.MyFates(me) == fates[id := Committed]
        else mode == Manual && activeTransaction == Some(id) &&
             manager.MyFates(me) == if o == Failed then fates else fates[id := Committed]
      case _ =>
        o == Failed && mode == Manual && activeTransaction == Some(id) && manager.MyFates(me) == fates
    }

    /** And when none was open. */
    ghost predicate Started(action: Action, o: Outcome, world: World)
      reads this, manager
    {
      match action
      case BeginRead => o == Ok && mode == Manual && Writes(false)
      case BeginWrite =>
        mode == Manual && o != CheckpointFailed && if o == Ok then Writes(true) else activeTransaction == None
      case Checkpoint =>
        mode == Auto && activeTransaction == None && o == if world.checkpoint then CheckpointFailed else Ok
      case _ => o == Failed && mode == Auto && activeTransaction == None
    }

    /** The connection has an open transaction, of the given kind. */
    ghost predicate Writes(write: bool)
      reads this, manager
    {
      && activeTransaction.Some? && activeTransaction.value in manager.active
      && manager.active[activeTransaction.value].write == write
    }

    /** Without a transaction of its own, a writer is another connection's. */
    lemma NoneOfMine()
      requires Valid()
      ensures activeTransaction.None? ==> (HasWriter(manager.active) <==> HasWriter(manager.Rest(me)))
    {
      if activeTransaction.None? && HasWriter(manager.active) {
        var id :| id in manager.active && manager.active[id].write;
        assert id !in manager.Mine(me);
        assert id in manager.Rest(me) && manager.Rest(me)[id].write;
      }
    }

    /** The one way to get stuck: to begin writing, outside a transaction, while another connection is writing. */
    ghost predicate Refusal(action: Action, open: Option<nat>, rest: map<nat, Tx>) {
      action == BeginWrite && open.None? && !manager.multiWrites && HasWriter(rest)
    }

    /** Runs a transaction statement; `refused` tells that the manager turned down a write transaction. */
    method RunAction(action: Action, world: World) returns (o: Outcome, ghost refused: bool)
      requires Settled()
      modifies this, manager
      ensures Valid() && (Settled() <==> !refused)
      ensures refused ==> action == BeginWrite && old(activeTransaction).None? && o == Failed
      ensures old(activeTransaction).Some? ==>
                && mode == Auto && activeTransaction == None
                && (o == Ok ==> action == Rollback || action == Commit)
                && (action == Rollback && !world.mapping ==> o == Ok)
                && manager.MyFates(me) == old(manager.MyFates(me))[old(activeTransaction).value :=
                     if action == Commit && o != Failed then Committed else RolledBack]
      ensures old(activeTransaction).None? ==>
                && manager.MyFates(me) == old(manager.MyFates(me))
                && if world.mapping then o == Failed && mode == Auto && activeTransaction == None
                   else Started(action, o, world)
      ensures Quiet(world) ==>
                && (refused <==> !world.mapping && Refusal(action, old(activeTransaction), old(manager.Rest(me))))
                && manager.Rest(me) == old(manager.Rest(me))
      ensures refused ==> mode == Manual && activeTransaction == None
    {
      Others(world.moves(0));
      NoneOfMine();
      o, refused := Failed, false;
      if !world.mapping {
        o := Perform(action, world);
        refused := old(activeTransaction).None? && action == BeginWrite && o == Failed;
      }
      if o == CheckpointFailed {
        ClearTransaction();
      } else if o == Failed {
        Others(world.moves(1));
        RollbackActive();
      }
    }

    /** Runs work in the open transaction, or in a new one when none is open, and ends it as asked; `tx` is the
        transaction the work ran in. */
    method RunWork(throws: bool, readOnly: bool, isTransactionStatement: bool, action: CommitAction, world: World,
                   at: nat)
      returns (o: Outcome, ghost tx: Option<nat>)
      requires Valid() && (mode == Auto || HasActiveTransaction())
      modifies this, manager
      ensures Valid()
      ensures old(activeTransaction).Some? ==> tx == old(activeTransaction)
      ensures old(activeTransaction).None? && isTransactionStatement ==>
                tx == None && o == if throws then Failed else Ok
      ensures old(activeTransaction).None? && !isTransactionStatement && tx == None ==> o == Failed
      ensures tx == None ==> (mode, activeTransaction) == old((mode, activeTransaction))
      ensures tx == None ==> manager.MyFates(me) == old(manager.MyFates(me))
      ensures tx.Some? && Stays(throws, old(activeTransaction).None?, old(mode), action) ==>
                && o == Ok && activeTransaction == tx && mode == old(mode)
                && manager.MyFates(me) == old(manager.MyFates(me))
                && (old(activeTransaction).Some? ==> manager.Mine(me) == old(manager.Mine(me)))
      ensures tx.Some? ==> tx.value !in old(manager.MyFates(me))
      ensures tx.Some? && !Stays(throws, old(activeTransaction).None?, old(mode), action) ==>
                && (throws ==> o == Failed) && mode == Auto && activeTransaction == None
                && manager.MyFates(me) ==
                   old(manager.MyFates(me))[tx.value := if o == Failed then RolledBack else Committed]
      ensures Quiet(world) ==> manager.Rest(me) == old(manager.Rest(me))
      ensures old(activeTransaction).None? && !isTransactionStatement && readOnly && !throws ==> o == Ok
    {
      var requireNew := mode == Auto && !HasActiveTransaction() && !isTransactionStatement;
      o := Enter(requireNew, readOnly, world, at);
      tx := activeTransaction;
      if o != Ok { return; }
      var ends := (requireNew && CommitsNew(action)) || (mode == Auto && CommitsAuto(action));
      o := Finish(throws, ends, world, at + 2);
    }

    /** Begins a transaction if one is needed. */
    method Enter(requireNew: bool, readOnly: bool, world: World, at: nat) returns (o: Outcome)
      requires Valid() && (requireNew ==> !HasActiveTransaction())
      modifies this, manager
      ensures Valid() && mode == old(mode) && manager.MyFates(me) == old(manager.MyFates(me))
      ensures !requireNew ==> o == Ok && activeTransaction == old(activeTransaction)
      ensures !requireNew ==> manager.Mine(me) == old(manager.Mine(me))
      ensures requireNew ==> (o == Ok <==> activeTransaction.Some?) && (o == Ok ==> Writes(!readOnly))
      ensures requireNew && readOnly ==> o == Ok
      ensures o == Ok || o == Failed
      ensures Quiet(world) ==> manager.Rest(me) == old(manager.Rest(me))
    {
      Others(world.moves(at));
      o := Ok;
      if requireNew {
        o := BeginAuto(readOnly);
        if o != Ok { return; }
      }
      assert activeTransaction.Some? ==> activeTransaction.value in manager.Mine(me);
      Others(world.moves(at + 1));
      assert activeTransaction.Some? ==> activeTransaction.value in manager.Mine(me);
    }

    /** The work itself, and the commit or the two kinds of clean-up after it. */
    method Finish(throws: bool, ends: bool, world: World, at: nat) returns (o: Outcome)
      requires Valid()
      modifies this, manager
      ensures Valid()
      ensures old(activeTransaction).None? ==>
                && (mode, activeTransaction) == old((mode, activeTransaction))
                && manager.MyFates(me) == old(manager.MyFates(me)) && o == if throws then Failed else Ok
      ensures old(activeTransaction).Some? && !throws && !ends ==>
                && o == Ok && (mode, activeTransaction) == old((mode, activeTransaction))
                && manager.MyFates(me) == old(manager.MyFates(me)) && manager.Mine(me) == old(manager.Mine(me))
      ensures old(activeTransaction).Some? && (throws || ends) ==>
                && (throws ==> o == Failed) && mode == Auto && activeTransaction == None
                && manager.MyFates(me) == old(manager.MyFates(me))[old(activeTransaction).value :=
                     if o == Failed then RolledBack else Committed]
      ensures Quiet(world) ==> manager.Rest(me) == old(manager.Rest(me))
      ensures old(Writes(false)) && !throws ==> o == Ok
    {
      o := if throws then Failed else Ok;
      if o == Ok && ends { o := CommitActive(world); }
      if o == CheckpointFailed {
        ClearTransaction();
      } else if o == Failed {
        Others(world.moves(at));
        RollbackActive();
      }
    }

    // ----- statements

    /** A write is refused on a read-only database and inside a read-only transaction. */
    ghost predicate Rejected(stmt: Statement, canWrite: bool)
      reads this, manager
    {
      stmt.Query? && !stmt.readOnly && (!canWrite || Writes(false))
    }

    /** Reading the statement's kind, in a transaction, then validating it, outside of one. */
    method Analyze(stmt: Statement, canWrite: bool, world: World) returns (ok: bool)
      requires Settled()
      modifies this, manager
      ensures Settled()
      ensures old(activeTransaction).Some? && !world.analyze ==>
                && ok == !old(Rejected(stmt, canWrite)) && activeTransaction == old(activeTransaction)
                && manager.MyFates(me) == old(manager.MyFates(me))
      ensures old(activeTransaction).Some? && world.analyze ==>
                && !ok && activeTransaction == None
                && manager.MyFates(me) == old(manager.MyFates(me))[old(activeTransaction).value := RolledBack]
      ensures old(activeTransaction).None? ==>
                activeTransaction == None && Keeps(old(manager.MyFates(me)), manager.MyFates(me))
      ensures Quiet(world) ==> manager.Rest(me) == old(manager.Rest(me))
      ensures old(activeTransaction).None? && stmt.TxStatement? ==> ok == !world.analyze
    {
      var o, tx := RunWork(world.analyze, true, false, CommitIfNew, world, 0);
      if o != Ok { return false; }
      var readOnly := stmt.TxStatement? || stmt.readOnly;
      if !canWrite && !readOnly { return false; }
      assert HasActiveTransaction() ==> activeTransaction.value in manager.Mine(me);
      ok := !(stmt.Query? && HasActiveTransaction() && IsReadOnly() && !readOnly);
    }

    /** Binding and planning: a query outside a manual transaction leaves its new transaction open, to be run in. */
    method Prepare(stmt: Statement, canWrite: bool, shouldCommitNew: bool, world: World)
      returns (ok: bool, ghost tx: Option<nat>)
      requires Settled()
      modifies this, manager
      ensures Valid()
      ensures old(activeTransaction).Some? ==>
                && (ok <==> !world.analyze && !old(Rejected(stmt, canWrite)) && !world.bind)
                && if ok || (!world.analyze && old(Rejected(stmt, canWrite))) then
                     && (mode, activeTransaction) == old((mode, activeTransaction))
                     && manager.MyFates(me) == old(manager.MyFates(me))
                   else
                     && mode == Auto && activeTransaction == None
                     && manager.MyFates(me) == old(manager.MyFates(me))[old(activeTransaction).value := RolledBack]
      ensures old(activeTransaction).None? ==>
                && mode == Auto && Keeps(old(manager.MyFates(me)), manager.MyFates(me))
                && (activeTransaction.Some? <==> ok && stmt.Query? && !shouldCommitNew)
                && (activeTransaction.Some? ==> tx == activeTransaction)
                && (!ok && !shouldCommitNew && tx.Some? ==> Ended(tx, RolledBack))
      ensures Quiet(world) ==> manager.Rest(me) == old(manager.Rest(me))
      ensures old(activeTransaction).None? && stmt.TxStatement? ==> ok == (!world.analyze && !world.bind)
    {
      ok := Analyze(stmt, canWrite, world);
      if !ok { return false, None; }
      var readOnly := stmt.TxStatement? || stmt.readOnly;
      var action := if shouldCommitNew then CommitIfNew else NotCommit;
      var o;
      o, tx := RunWork(world.bind, readOnly, stmt.TxStatement?, action, world, 3);
      ok := o == Ok;
    }

    /** A query, prepared and then run.  Inside a manual transaction, any failure but a rejected write rolls the
        whole transaction back; on its own, it is committed unless it fails for another reason than a checkpoint. */
    method RunQueryStatement(readOnly: bool, canWrite: bool, world: World) returns (o: Outcome, ghost tx: Option<nat>)
      requires Settled()
      modifies this, manager
      ensures Settled()
      ensures old(activeTransaction).Some? ==>
                var rejected := !world.analyze && old(Rejected(Query(readOnly), canWrite));
                && (o == Ok <==> !world.analyze && !rejected && !world.bind && !world.work)
                && if o == Ok || rejected then
                     && activeTransaction == old(activeTransaction)
                     && manager.MyFates(me) == old(manager.MyFates(me))
                   else
                     && activeTransaction == None
                     && manager.MyFates(me) == old(manager.MyFates(me))[old(activeTransaction).value := RolledBack]
      ensures old(activeTransaction).None? ==>
                && activeTransaction == None && Keeps(old(manager.MyFates(me)), manager.MyFates(me))
                && (o != Failed <==> Ended(tx, Committed)) && (o == Failed && tx.Some? ==> Ended(tx, RolledBack))
      ensures Quiet(world) ==> manager.Rest(me) == old(manager.Rest(me))
    {
      var ok;
      ok, tx := Prepare(Query(readOnly), canWrite, false, world);
      if !ok { return Failed, tx; }
      o, tx := RunWork(world.work, readOnly, false, CommitNewOrAuto, world, 6);
    }

    /** A transaction statement, prepared and then run. */
    method RunTransactionStatement(action: Action, world: World) returns (o: Outcome, ghost refused: bool)
      requires Settled()
      modifies this, manager
      ensures Valid() && (Settled() <==> !refused)
      ensures refused ==> action == BeginWrite && old(activeTransaction).None? && o == Failed
      ensures old(activeTransaction).Some? ==>
                && activeTransaction == None && (o == Ok ==> action == Rollback || action == Commit)
                && manager.MyFates(me) == old(manager.MyFates(me))[old(activeTransaction).value :=
                     if action == Commit && o != Failed then Committed else RolledBack]
      ensures old(activeTransaction).None? ==>
                && Keeps(old(manager.MyFates(me)), manager.MyFates(me))
                && (activeTransaction.Some? <==> o == Ok && (action == BeginRead || action == BeginWrite))
                && (activeTransaction.Some? ==> Writes(action == BeginWrite))
      ensures Quiet(world) ==>
                && (refused <==>
                    Executes(world) && Refusal(action, old(activeTransaction), old(manager.Rest(me))))
                && manager.Rest(me) == old(manager.Rest(me))
      ensures refused ==> mode == Manual && activeTransaction == None
    {
      var ok, tx := Prepare(TxStatement(action), true, false, world);
      if !ok { return Failed, false; }
      o, refused := RunAction(action, world);
    }

    method RunStatement(stmt: Statement, canWrite: bool, world: World) returns (o: Outcome, ghost refused: bool)
      requires Settled()
      modifies this, manager
      ensures Valid() && (Settled() <==> !refused)
      ensures refused ==> stmt == TxStatement(BeginWrite) && old(activeTransaction).None? && o == Failed
      ensures stmt.Query? && o == Ok ==> activeTransaction == old(activeTransaction)
      ensures o == Ok ==> activeTransaction.Some? == OpenAfter(stmt, old(activeTransaction).Some?)
      ensures Quiet(world) ==>
                && (refused <==> Executes(world) && stmt.TxStatement? &&
                                 Refusal(stmt.action, old(activeTransaction), old(manager.Rest(me))))
                && manager.Rest(me) == old(manager.Rest(me))
      ensures refused ==> mode == Manual && activeTransaction == None
    {
      match stmt
      case Query(readOnly) =>
        ghost var tx;
        o, tx := RunQueryStatement(readOnly, canWrite, world);
        refused := false;
      case TxStatement(action) =>
        o, refused := RunTransactionStatement(action, world);
    }

    /** The statements of one query text, up to the first that fails: after a refused begin nothing more is run. */
    method RunQuery(stmts: seq<Statement>, canWrite: bool, worlds: seq<World>)
      returns (o: Outcome, ghost refused: bool, ghost ran: nat)
      requires Settled() && |stmts| == |worlds|
      modifies this, manager
      ensures Valid() && (Settled() <==> !refused)
      ensures ran <= |stmts| && (o == Ok <==> ran == |stmts|)
      ensures refused ==> o == Failed && stmts[ran] == TxStatement(BeginWrite)
      ensures (forall k :: 0 <= k < |stmts| ==> stmts[k].Query?) && o == Ok ==>
                activeTransaction == old(activeTransaction)
      ensures (forall k :: 0 <= k < |stmts| ==> Quiet(worlds[k])) ==>
                (refused <==> ran < |stmts| && Executes(worlds[ran]) && stmts[ran] == TxStatement(BeginWrite) &&
                              !OpenAfterAll(stmts[..ran], old(activeTransaction).Some?) &&
                              !manager.multiWrites && HasWriter(old(manager.Rest(me))))
      ensures refused ==> mode == Manual && activeTransaction == None
    {
      o, refused, ran := Ok, false, 0;
      for k := 0 to |stmts|
        invariant Settled() && o == Ok && !refused && ran == k
        invariant (forall j :: 0 <= j < k ==> stmts[j].Query?) ==> activeTransaction == old(activeTransaction)
        invariant activeTransaction.Some? == OpenAfterAll(stmts[..k], old(activeTransaction).Some?)
        invariant (forall j :: 0 <= j < |stmts| ==> Quiet(worlds[j])) ==> manager.Rest(me) == old(manager.Rest(me))
      {
        o, refused := RunStatement(stmts[k], canWrite, worlds[k]);
        if o != Ok { return; }
        assert stmts[..k + 1][..k] == stmts[..k];
        ran := k + 1;
      }
      assert stmts[..|stmts|] == stmts;
    }

    /** Preparing alone never leaves a transaction behind that was not there before. */
    method PrepareStatement(stmt: Statement, canWrite: bool, world: World) returns (ok: bool)
      requires Settled()
      modifies this, manager
      ensures Settled() && (activeTransaction.Some? ==> activeTransaction == old(activeTransaction))
      ensures ok ==> activeTransaction == old(activeTransaction)
    {
      ghost var tx;
      ok, tx := Prepare(stmt, canWrite, true, world);
    }

    /** The transaction has ended, in the given way. */
    ghost predicate Ended(tx: Option<nat>, fate: Fate)
      reads this, manager
    {
      tx.Some? && tx.value in manager.MyFates(me) && manager.MyFates(me)[tx.value] == fate
    }
  }

  /** What is over stays as it ended. */
  ghost predicate Keeps(was: map<nat, Fate>, now: map<nat, Fate>) {
    forall id :: id in was ==> id in now && now[id] == was[id]
  }

  /** Nothing throws before the statement itself is run. */
  ghost predicate Executes(world: World) {
    !world.analyze && !world.bind && !world.mapping
  }

  /** Whether a transaction is open after statements that return. */
  function OpenAfter(stmt: Statement, open: bool): bool {
    match stmt
    case Query(_) => open
    case TxStatement(BeginRead) => true
    case TxStatement(BeginWrite) => true
    case TxStatement(Checkpoint) => open
    case TxStatement(_) => false
  }

  function OpenAfterAll(stmts: seq<Statement>, open: bool): bool {
    if stmts == [] then open
    else OpenAfter(stmts[|stmts| - 1], OpenAfterAll(stmts[..|stmts| - 1], open))
  }

  predicate CommitsNew(action: CommitAction) {
    action == CommitIfNew || action == CommitNewOrAuto
  }

  predicate CommitsAuto(action: CommitAction) {
    action == CommitIfAuto || action == CommitNewOrAuto
  }

  /** The transaction is left open after the work. */
  predicate Stays(throws: bool, isNew: bool, mode: Mode, action: CommitAction) {
    !throws && !(isNew && CommitsNew(action)) && !(mode == Auto && CommitsAuto(action))
  }
}
