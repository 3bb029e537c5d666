/** The outbox message kinds (`OutboxKind`), their names, which form the
    namespace of idempotency keys, and the rows a claim hands back (`OutboxData`). */
module Kinds {

  type Bytes = seq<bv8>

  /** `OutboxKind` is a Go `int`: every integer is a value of the type. */
  type OutboxKind = int

  const KindUndefined: OutboxKind := 0
  const KindBook: OutboxKind := 1
  const KindAuthor: OutboxKind := 2

  /** `OutboxKind.String()` */
  function KindName(k: OutboxKind): (name: string)
    ensures name == "book" <==> k == KindBook
    ensures name == "author" <==> k == KindAuthor
    ensures name == "undefined" <==> k != KindBook && k != KindAuthor
  {
    if k == KindBook then "book" else if k == KindAuthor then "author" else "undefined"
  }

  /** The key producers build: `kind.String() + "_" + id`. */
  function IdempotencyKey(k: OutboxKind, id: string): string
  {
    KindName(k) + "_" + id
  }

  /** One claimed row: `OutboxData{IdempotencyKey, Kind, RawData}`. */
  datatype OutboxData = OutboxData(key: string, kind: OutboxKind, rawData: Bytes)

  /** The name is not injective: KindUndefined and every value outside the enum share it. */
  lemma NameNotInjective(k: OutboxKind)
    requires k != KindBook && k != KindAuthor
    ensures KindName(k) == KindName(KindUndefined)
  {
  }

  /** Two keys are equal exactly when the kind names agree and the ids agree;
      in particular KindBook and KindAuthor keys never collide. */
  lemma KeyCollision(k1: OutboxKind, id1: string, k2: OutboxKind, id2: string)
    ensures IdempotencyKey(k1, id1) == IdempotencyKey(k2, id2)
        <==> KindName(k1) == KindName(k2) && id1 == id2
  {
    var a, b := IdempotencyKey(k1, id1), IdempotencyKey(k2, id2);
    if KindName(k1) != KindName(k2) {
      // every name starts with its own letter: 'b', 'a' or 'u'
      assert a[0] == KindName(k1)[0];
      assert b[0] == KindName(k2)[0];
    } else if a == b {
      var n := |KindName(k1) + "_"|;
      assert a[n..] == id1;
      assert b[n..] == id2;
    }
  }
}
