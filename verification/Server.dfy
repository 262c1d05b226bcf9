/** The ssbd server: its handlers, run on string stores, do to a block what the participant model says. */
module Server {
  import opened Bytes
  import opened Text
  import opened Participant
  import opened ReadPath
  import opened LogStore

  /** The two versions and the block image of every block, in one string-to-string store. */
  class PersistentLog {
    var db: Db

    constructor ()
      ensures forall id :: RecordOf(db, id) == LogRecord(0, 0, [])
    {
      db := map[];
    }

    /** An unreadable version is reset to "0"; no record changes by that. */
    method GetVersion(id: BlockId, f: Field) returns (version: uint32)
      requires f != PendingData
      modifies this
      ensures version == VersionOf(Lookup(old(db), FieldKey(id, f)))
      ensures forall id' :: RecordOf(db, id') == old(RecordOf(db, id'))
    {
      hide FieldKey;
      var buffer := Lookup(db, FieldKey(id, f));
      if buffer == [] { return 0; }
      match Stoll(buffer)
      case Some(v) =>
        return v % 0x1_0000_0000;
      case None =>
        VersionRoundTrip(0);
        forall id' { PutField(db, id, f, Digits(0), id'); }
        db := db[FieldKey(id, f) := Digits(0)];
        return 0;
    }

    method PutCommittedVersion(id: BlockId, version: uint32)
      modifies this
      ensures RecordOf(db, id) == old(RecordOf(db, id)).(committed := version)
      ensures forall id' | id' != id :: RecordOf(db, id') == old(RecordOf(db, id'))
    {
      hide RecordOf;
      VersionRoundTrip(version);
      forall id' { PutField(db, id, CommittedVersion, Digits(version), id'); }
      db := db[FieldKey(id, CommittedVersion) := Digits(version)];
    }

    method PutPendingPrepare(id: BlockId, value: seq<byte>, version: uint32)
      modifies this
      ensures RecordOf(db, id) == old(RecordOf(db, id)).(pending := version, data := value)
      ensures forall id' | id' != id :: RecordOf(db, id') == old(RecordOf(db, id'))
    {
      hide RecordOf;
      VersionRoundTrip(version);
      forall id' { PutField(db, id, PendingVersion, Digits(version), id'); }
      db := db[FieldKey(id, PendingVersion) := Digits(version)];
      forall id' { PutField(db, id, PendingData, value, id'); }
      db := db[FieldKey(id, PendingData) := value];
    }

    method HavePendingLog(id: BlockId) returns (live: bool)
      modifies this
      ensures live == (var r := old(RecordOf(db, id)); !(r.pending == r.committed || r.pending == 0))
      ensures forall id' :: RecordOf(db, id') == old(RecordOf(db, id'))
    {
      hide FieldKey, VersionOf;
      var pending := GetVersion(id, PendingVersion);
      label L:
      assert RecordOf(db, id) == old(RecordOf(db, id));
      var committed := GetVersion(id, CommittedVersion);
      assert committed == old@L(RecordOf(db, id)).committed;
      live := !(pending == committed || pending == 0);
    }
  }

  class Ssbd {
    var db: Db
    const log: PersistentLog

    constructor ()
      ensures fresh(log) && forall id :: View(id) == Block(None, 0, 0, [])
    {
      db := map[];
      log := new PersistentLog();
    }

    /** The block the two stores hold under an id. */
    function View(id: BlockId): Block
      reads this, log
    {
      var r := RecordOf(log.db, id);
      Block(if KeyOf(id) in db then Some(db[KeyOf(id)]) else None, r.committed, r.pending, r.data)
    }

    /** db.Put of a block's content. */
    method PutBlock(id: BlockId, value: seq<byte>)
      modifies this
      ensures View(id) == old(View(id)).(content := Some(value))
      ensures forall id' | id' != id :: View(id') == old(View(id'))
    {
      hide KeyOf, RecordOf;
      forall id' { BlockKeysDistinct(id, id'); }
      db := db[KeyOf(id) := value];
    }

    /** A prepare for a missing block first stores it empty, with an empty log. */
    method EnsureStored(id: BlockId)
      modifies this, log
      ensures View(id) == Created(old(View(id)))
      ensures forall id' | id' != id :: View(id') == old(View(id'))
    {
      hide KeyOf, RecordOf;
      if KeyOf(id) !in db {
        PutBlock(id, []);
        log.PutCommittedVersion(id, 0);
        log.PutPendingPrepare(id, [], 0);
      }
    }

    method TwoPcPrepareQuick(id: BlockId, u: Update, version: uint32) returns (agree: bool)
      modifies this, log
      ensures var p := PrepareQuick(old(View(id)), u, version); View(id) == p.block && agree == p.agree
      ensures forall id' | id' != id :: View(id') == old(View(id'))
    {
      hide KeyOf, RecordOf, Overlay;
      EnsureStored(id);
      log.PutPendingPrepare(id, Overlay(db[KeyOf(id)], u.offset, u.data), version);
      agree := true;
    }

    method TwoPcPrepare(id: BlockId, u: Update, version: uint32) returns (agree: bool)
      modifies this, log
      ensures var p := PrepareSlow(old(View(id)), u, version); View(id) == p.block && agree == p.agree
      ensures forall id' | id' != id :: View(id') == old(View(id'))
    {
      hide KeyOf, RecordOf, Overlay;
      EnsureStored(id);
      var live := log.HavePendingLog(id);
      agree := !live;
      if agree {
        log.PutPendingPrepare(id, Overlay(db[KeyOf(id)], u.offset, u.data), version);
      }
    }

    /** Installs whatever the slot holds. */
    method TwoPcCommitExecute(id: BlockId)
      modifies this, log
      ensures View(id) == Execute(old(View(id)))
      ensures forall id' | id' != id :: View(id') == old(View(id'))
    {
      hide KeyOf, FieldKey, VersionOf;
      var value := Lookup(log.db, FieldKey(id, PendingData));
      var version := log.GetVersion(id, PendingVersion);
      log.PutCommittedVersion(id, version);
      PutBlock(id, value);
    }

    /** Empties the slot, whatever version it holds. */
    method TwoPcCommitRollback(id: BlockId)
      modifies log
      ensures View(id) == Rollback(old(View(id)))
      ensures forall id' | id' != id :: View(id') == old(View(id'))
    {
      hide KeyOf, RecordOf;
      log.PutPendingPrepare(id, [], 0);
    }

    /** A replica is stored beside the blocks and touches none of them. */
    method Replicate(id: BlockId, u: Update)
      modifies this
      ensures forall id' :: View(id') == old(View(id'))
      ensures Lookup(db, ReplicaKey(id)) == Overlay(Lookup(old(db), ReplicaKey(id)), u.offset, u.data)
      ensures forall id' | id' != id :: Lookup(db, ReplicaKey(id')) == Lookup(old(db), ReplicaKey(id'))
    {
      hide KeyOf, RecordOf, Overlay, ReplicaKey;
      forall id' { BlockKeysDistinct(id', id); }
      db := db[ReplicaKey(id) := Overlay(Lookup(db, ReplicaKey(id)), u.offset, u.data)];
    }

    method Get(id: BlockId, position: nat, size: nat) returns (reply: Reply)
      ensures reply == DbRead(View(id), position, size)
    {
      if KeyOf(id) !in db { return Missing; }
      var buf := db[KeyOf(id)];
      if |buf| < position { return Overrun; }
      reply := Data(Resize(buf[position..Min(position + size, |buf|)], size));
    }
  }
}
