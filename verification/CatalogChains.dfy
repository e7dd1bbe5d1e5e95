/** Version chains of the catalog: every name maps to a chain of entries, each carrying either a commit
    timestamp or, while uncommitted, the identifier of the transaction that wrote it.

    A chain is a sequence, oldest entry first.  `prev` and `next` pointers become positions: the entry
    before position p is p - 1 and the one after it is p + 1, so a pointer to an entry is a name and a
    position.  Names are taken after case folding, since the source keys its map case-insensitively. */
module CatalogChains {

  type Name = string

  const START_TRANSACTION_ID: nat := 0x8000_0000_0000_0000

  datatype Kind = DummyEntry | TableEntry | ForeignTableEntry | MacroEntry | FunctionEntry
                | SequenceEntry | TypeEntry | IndexEntry | GraphEntry

  /** What a caller sees of an entry; `payload` stands for the fields of the entry's own kind. */
  datatype Content = Content(kind: Kind, name: Name, oid: nat, hasParent: bool, payload: string)

  datatype Entry = Entry(content: Content, timestamp: nat, deleted: bool)

  type Chain = seq<Entry>
  type Entries = map<Name, Chain>

  datatype Tx = Tx(id: nat, startTS: nat)

  /** A pointer to the entry that was the newest one when the transaction pushed another on top. */
  datatype UndoRecord = UndoRecord(name: Name, pos: nat)

  /** Outcome of an operation: the chains it leaves, the undo records it appends, whether it threw. */
  datatype Outcome = Outcome(entries: Entries, log: seq<UndoRecord>, thrown: bool)

  // ----- visibility

  predicate Sees(e: Entry, tx: Tx) {
    e.timestamp == tx.id || e.timestamp <= tx.startTS
  }

  /** Position of the newest of the first k entries that the transaction sees, or -1. */
  function LastSeen(chain: Chain, k: nat, tx: Tx): (r: int)
    requires k <= |chain|
    ensures -1 <= r < k
    ensures 0 <= r ==> Sees(chain[r], tx)
    ensures forall i :: r < i < k ==> !Sees(chain[i], tx)
  {
    if k == 0 then -1
    else if Sees(chain[k - 1], tx) then k - 1
    else LastSeen(chain, k - 1, tx)
  }

  function Visible(chain: Chain, tx: Tx): (r: int)
    ensures -1 <= r < |chain|
  {
    LastSeen(chain, |chain|, tx)
  }

  predicate Live(chain: Chain, tx: Tx) {
    var i := Visible(chain, tx);
    i >= 0 && !chain[i].deleted
  }

  /** The catalog as one transaction sees it. */
  function View(entries: Entries, tx: Tx): map<Name, Content> {
    map n | n in entries && Live(entries[n], tx) :: entries[n][Visible(entries[n], tx)].content
  }

  /** The committed catalog as of a timestamp; identifier 0 belongs to no writer. */
  function ViewAt(entries: Entries, ts: nat): map<Name, Content> {
    View(entries, Tx(0, ts))
  }

  // ----- operations

  function DummyOf(name: Name, oid: nat, timestamp: nat): Entry {
    Entry(Content(DummyEntry, name, oid, false, ""), timestamp, true)
  }

  function Push(entries: Entries, e: Entry): Entries {
    var n := e.content.name;
    if n in entries then entries[n := entries[n] + [e]] else entries[n := [e]]
  }

  predicate WWConflict(tx: Tx, e: Entry) {
    || (e.timestamp >= START_TRANSACTION_ID && e.timestamp != tx.id)
    || (e.timestamp < START_TRANSACTION_ID && e.timestamp > tx.startTS)
  }

  /** Makes sure the name has a chain, starting one with a deleted base entry. */
  function WithBase(entries: Entries, name: Name, oid: nat): (r: Entries)
    ensures name in r
  {
    if name in entries then entries else entries[name := [DummyOf(name, oid, 0)]]
  }

  predicate CreateRefused(entries: Entries, tx: Tx, name: Name) {
    || name in View(entries, tx)
    || (name in entries && |entries[name]| > 0 &&
        (WWConflict(tx, entries[name][|entries[name]| - 1]) || !entries[name][|entries[name]| - 1].deleted))
  }

  function CreateIn(entries: Entries, tx: Tx, c: Content): Outcome
    requires forall n :: n in entries ==> |entries[n]| > 0
  {
    if CreateRefused(entries, tx, c.name) then Outcome(entries, [], true)
    else
      var based := WithBase(entries, c.name, c.oid);
      Outcome(Push(based, Entry(c, tx.id, false)), [UndoRecord(c.name, |based[c.name]| - 1)], false)
  }

  function DropIn(entries: Entries, tx: Tx, name: Name, oid: nat): Outcome
    requires forall n :: n in entries ==> |entries[n]| > 0
  {
    if name !in View(entries, tx) then Outcome(entries, [], true)
    else Outcome(Push(entries, DummyOf(name, oid, tx.id)), [UndoRecord(name, |entries[name]| - 1)], false)
  }

  /** Every alteration but a rename: a changed copy of the visible entry goes on top.  The undo record
      points at the visible entry, not at the old head. */
  function AlterIn(entries: Entries, tx: Tx, name: Name, payload: string): Outcome {
    if name !in View(entries, tx) then Outcome(entries, [], true)
    else
      var i := Visible(entries[name], tx);
      var c := entries[name][i].content.(payload := payload);
      Outcome(Push(entries, Entry(c, tx.id, false)), [UndoRecord(name, i)], false)
  }

  /** A rename drops the old name and creates the new one; the records are written only after both. */
  function RenameIn(entries: Entries, tx: Tx, name: Name, newName: Name): Outcome
    requires forall n :: n in entries ==> |entries[n]| > 0
  {
    if name !in View(entries, tx) then Outcome(entries, [], true)
    else
      var i := Visible(entries[name], tx);
      var c := entries[name][i].content;
      var dropped := Push(entries, DummyOf(name, c.oid, tx.id));
      var created := CreateIn(dropped, tx, c.(name := newName));
      if created.thrown then Outcome(dropped, [], true)
      else Outcome(created.entries, [UndoRecord(name, i)] + created.log, false)
  }

  // ----- undo buffer

  /** The entry a record stands for is the one after the position it points at. */
  predicate HasNext(entries: Entries, r: UndoRecord) {
    r.name in entries && r.pos + 1 < |entries[r.name]|
  }

  function CommitRecord(entries: Entries, r: UndoRecord, commitTS: nat): Entries
    requires HasNext(entries, r)
  {
    var chain := entries[r.name];
    entries[r.name := chain[r.pos + 1 := chain[r.pos + 1].(timestamp := commitTS)]]
  }

  /** Unlinks the entry after the recorded one: out of the middle when newer entries exist, otherwise off
      the top, in which case the rest of the chain is put back under the name. */
  function RollbackRecord(entries: Entries, r: UndoRecord): Entries
    requires HasNext(entries, r)
  {
    var chain := entries[r.name];
    if r.pos + 2 < |chain| then entries[r.name := chain[..r.pos + 1] + chain[r.pos + 2..]]
    else entries[r.name := chain[..r.pos + 1]]
  }
}
