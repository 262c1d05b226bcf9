/** The ssbd server's two key-value stores: committed blocks, and the log with three keys per block. */
module LogStore {
  import opened Bytes
  import opened Text

  datatype BlockId = BlockId(uuid: Uuid, block: nat)

  /** packet_header::as_string */
  function KeyOf(id: BlockId): seq<byte> { id.uuid + Digits(id.block) }

  datatype Field = CommittedVersion | PendingVersion | PendingData

  function Suffix(f: Field): seq<byte> {
    match f
    case CommittedVersion => Ascii("-committed-version")
    case PendingVersion => Ascii("-version")
    case PendingData => Ascii("-data")
  }

  function FieldKey(id: BlockId, f: Field): seq<byte> { KeyOf(id) + Suffix(f) }

  function ReplicaKey(id: BlockId): seq<byte> { KeyOf(id) + Ascii("repl") }

  // ---- keys never collide

  lemma SuffixShape(f: Field)
    ensures Suffix(f) != [] && Suffix(f)[0] == 45
    ensures |Suffix(f)| == match f case CommittedVersion => 18 case PendingVersion => 8 case PendingData => 5
  {
  }

  lemma KeysThenRest(id: BlockId, s: seq<byte>, id': BlockId, s': seq<byte>)
    requires s != [] ==> !IsDigit(s[0])
    requires s' != [] ==> !IsDigit(s'[0])
    requires KeyOf(id) + s == KeyOf(id') + s'
    ensures id == id' && s == s'
  {
    var d, d' := Digits(id.block), Digits(id'.block);
    assert id.uuid == (KeyOf(id) + s)[..32] == (KeyOf(id') + s')[..32] == id'.uuid;
    assert d + s == (KeyOf(id) + s)[32..] == (KeyOf(id') + s')[32..] == d' + s';
    DigitsPrint(id.block);
    DigitsPrint(id'.block);
    DigitsThenRest(d, s, d', s');
    DigitsInjective(id.block, id'.block);
  }

  /** Distinct (file, block, field) never share a log key. */
  lemma FieldKeysDistinct(id: BlockId, f: Field, id': BlockId, f': Field)
    requires FieldKey(id, f) == FieldKey(id', f')
    ensures id == id' && f == f'
  {
    hide KeyOf, Suffix;
    SuffixShape(f);
    SuffixShape(f');
    KeysThenRest(id, Suffix(f), id', Suffix(f'));
  }

  /** Distinct blocks have distinct block keys, and a replica key is never a block key. */
  lemma BlockKeysDistinct(id: BlockId, id': BlockId)
    ensures KeyOf(id) == KeyOf(id') ==> id == id'
    ensures KeyOf(id) != ReplicaKey(id')
    ensures ReplicaKey(id) == ReplicaKey(id') ==> id == id'
  {
    hide KeyOf;
    assert KeyOf(id) + [] == KeyOf(id) && KeyOf(id') + [] == KeyOf(id');
    if KeyOf(id) == KeyOf(id') { KeysThenRest(id, [], id', []); }
    if KeyOf(id) == ReplicaKey(id') { KeysThenRest(id, [], id', Ascii("repl")); }
    if ReplicaKey(id) == ReplicaKey(id') { KeysThenRest(id, Ascii("repl"), id', Ascii("repl")); }
  }

  // ---- the log as one record per block

  type Db = map<seq<byte>, seq<byte>>

  /** leveldb Get into an empty string. */
  function Lookup(db: Db, key: seq<byte>): seq<byte> { if key in db then db[key] else [] }

  datatype LogRecord = LogRecord(committed: uint32, pending: uint32, data: seq<byte>)

  function RecordOf(db: Db, id: BlockId): LogRecord {
    LogRecord(VersionOf(Lookup(db, FieldKey(id, CommittedVersion))),
              VersionOf(Lookup(db, FieldKey(id, PendingVersion))),
              Lookup(db, FieldKey(id, PendingData)))
  }

  /** Storing one field of one block changes that field of that block's record and nothing else. */
  lemma PutField(db: Db, id: BlockId, f: Field, value: seq<byte>, id': BlockId)
    ensures var r := RecordOf(db, id');
            RecordOf(db[FieldKey(id, f) := value], id') ==
              if id' != id then r
              else match f
                   case CommittedVersion => r.(committed := VersionOf(value))
                   case PendingVersion => r.(pending := VersionOf(value))
                   case PendingData => r.(data := value)
  {
    hide FieldKey, VersionOf;
    forall f' | FieldKey(id, f) == FieldKey(id', f') ensures id == id' && f == f' { FieldKeysDistinct(id, f, id', f'); }
  }
}
