/**
 Transactions and the order that `std::set<Transaction>` keeps them in
 (sources/chain/transaction.cpp).
*/
module Transactions {
  import opened Wrappers
  import opened Hashing
  import opened OrderedSets

  const ACTOR_SIZE := 40

  type ActorId = s: string | |s| == ACTOR_SIZE witness seq(ACTOR_SIZE, _ => '0')

  type Byte = b: int | 0 <= b < 256

  const ZERO_ACTOR: ActorId := "0000000000000000000000000000000000000000"

  datatype TransactionType =
    | Genesis
    | Regular
    | InitContract
    | Repeatable
    | Reward
    | Burn
    | Conversion
    | Minting
    | Balance
    | Unknown
  {
    /** The underlying value of the enumerator. */
    function Code(): int {
      match this
      case Genesis => 0
      case Regular => 1
      case InitContract => 2
      case Repeatable => 3
      case Reward => 4
      case Burn => 5
      case Conversion => 6
      case Minting => 7
      case Balance => 99
      case Unknown => 100
    }
  }

  datatype Transaction = Transaction(
    section: int,
    timestamp: nat,
    hash: Digest,
    sender: ActorId,
    receiver: ActorId,
    amount: real,
    token: ActorId,
    meta: Option<string>,
    kind: TransactionType,
    prevHashes: seq<string>,
    signature: seq<Byte>)

  predicate CharLess(a: char, b: char) { a < b }

  predicate ByteLess(a: Byte, b: Byte) { a < b }

  /** `std::lexicographical_compare`. */
  predicate LexLess<T(==)>(a: seq<T>, b: seq<T>, less: (T, T) -> bool) {
    && |b| > 0
    && (|a| == 0 || less(a[0], b[0]) || (a[0] == b[0] && LexLess(a[1..], b[1..], less)))
  }

  predicate StringLess(a: string, b: string) { LexLess(a, b, CharLess) }

  /** `std::optional`'s order: an empty value comes first. */
  predicate MetaLess(a: Option<string>, b: Option<string>) {
    b.Some? && (a.None? || StringLess(a.value, b.value))
  }

  /** `Transaction::operator<`. */
  predicate Less(a: Transaction, b: Transaction) {
    if a.section != b.section then a.section < b.section
    else if a.timestamp != b.timestamp then a.timestamp < b.timestamp
    else if a.hash != b.hash then StringLess(a.hash, b.hash)
    else if a.sender != b.sender then StringLess(a.sender, b.sender)
    else if a.receiver != b.receiver then StringLess(a.receiver, b.receiver)
    else if a.amount != b.amount then a.amount < b.amount
    else if a.token != b.token then StringLess(a.token, b.token)
    else if a.meta != b.meta then MetaLess(a.meta, b.meta)
    else if a.kind != b.kind then a.kind.Code() < b.kind.Code()
    else if a.prevHashes != b.prevHashes then LexLess(a.prevHashes, b.prevHashes, StringLess)
    else LexLess(a.signature, b.signature, ByteLess)
  }

  /** `Transaction::operator==`, with the comparison of amounts disabled as in the source. */
  predicate SameContent(a: Transaction, b: Transaction) {
    && a.section == b.section
    && a.kind == b.kind
    && a.sender == b.sender
    && a.receiver == b.receiver
    && a.token == b.token
    && a.timestamp == b.timestamp
    && a.meta == b.meta
    && a.prevHashes == b.prevHashes
  }

  lemma {:induction false} LexTrichotomy<T(!new)>(a: seq<T>, b: seq<T>, less: (T, T) -> bool)
    requires StrictTotalOrder(less)
    ensures !LexLess(a, a, less)
    ensures a == b || LexLess(a, b, less) || LexLess(b, a, less)
  {
    if |a| > 0 {
      if |b| > 0 {
        LexTrichotomy(a[1..], b[1..], less);
        assert a == [a[0]] + a[1..] && b == [b[0]] + b[1..];
      } else {
        LexTrichotomy(a[1..], b, less);
      }
    }
  }

  lemma {:induction false} LexTransitive<T(!new)>(a: seq<T>, b: seq<T>, c: seq<T>, less: (T, T) -> bool)
    requires StrictTotalOrder(less)
    requires LexLess(a, b, less) && LexLess(b, c, less)
    ensures LexLess(a, c, less)
  {
    if |a| > 0 && a[0] == b[0] && b[0] == c[0] {
      LexTransitive(a[1..], b[1..], c[1..], less);
    }
  }

  lemma StringOrder(a: string, b: string, c: string)
    ensures !StringLess(a, a)
    ensures a == b || StringLess(a, b) || StringLess(b, a)
    ensures StringLess(a, b) && StringLess(b, c) ==> StringLess(a, c)
  {
    assert StrictTotalOrder(CharLess);
    LexTrichotomy(a, b, CharLess);
    if StringLess(a, b) && StringLess(b, c) {
      LexTransitive(a, b, c, CharLess);
    }
  }

  lemma StringLessIsStrictTotalOrder()
    ensures StrictTotalOrder(StringLess)
  {
    forall a, b, c
      ensures !StringLess(a, a) && (a == b || StringLess(a, b) || StringLess(b, a))
      ensures StringLess(a, b) && StringLess(b, c) ==> StringLess(a, c)
    {
      StringOrder(a, b, c);
    }
  }

  lemma TransactionFields(a: Transaction, b: Transaction, c: Transaction)
    ensures !LexLess(a.signature, a.signature, ByteLess)
    ensures a.prevHashes == b.prevHashes || LexLess(a.prevHashes, b.prevHashes, StringLess)
      || LexLess(b.prevHashes, a.prevHashes, StringLess)
    ensures a.signature == b.signature || LexLess(a.signature, b.signature, ByteLess)
      || LexLess(b.signature, a.signature, ByteLess)
    ensures LexLess(a.prevHashes, b.prevHashes, StringLess) && LexLess(b.prevHashes, c.prevHashes, StringLess)
      ==> LexLess(a.prevHashes, c.prevHashes, StringLess) && a.prevHashes != c.prevHashes
    ensures LexLess(a.signature, b.signature, ByteLess) && LexLess(b.signature, c.signature, ByteLess)
      ==> LexLess(a.signature, c.signature, ByteLess)
    ensures a.meta == b.meta || MetaLess(a.meta, b.meta) || MetaLess(b.meta, a.meta)
    ensures MetaLess(a.meta, b.meta) && MetaLess(b.meta, c.meta) ==> MetaLess(a.meta, c.meta) && a.meta != c.meta
  {
    StringLessIsStrictTotalOrder();
    assert StrictTotalOrder(ByteLess);
    LexTrichotomy(a.signature, b.signature, ByteLess);
    LexTrichotomy(a.prevHashes, b.prevHashes, StringLess);
    if LexLess(a.prevHashes, b.prevHashes, StringLess) && LexLess(b.prevHashes, c.prevHashes, StringLess) {
      LexTransitive(a.prevHashes, b.prevHashes, c.prevHashes, StringLess);
      LexTrichotomy(a.prevHashes, c.prevHashes, StringLess);
    }
    if LexLess(a.signature, b.signature, ByteLess) && LexLess(b.signature, c.signature, ByteLess) {
      LexTransitive(a.signature, b.signature, c.signature, ByteLess);
    }
  }

  lemma LessTrichotomy(a: Transaction, b: Transaction)
    ensures !Less(a, a)
    ensures a == b || Less(a, b) || Less(b, a)
  {
    StringLessIsStrictTotalOrder();
    TransactionFields(a, b, a);
    assert a.kind != b.kind ==> a.kind.Code() != b.kind.Code();
  }

  lemma LessTransitive(a: Transaction, b: Transaction, c: Transaction)
    requires Less(a, b) && Less(b, c)
    ensures Less(a, c)
  {
    StringLessIsStrictTotalOrder();
    TransactionFields(a, b, c);
  }

  /** Eleven keys in a row still make a strict total order, so `std::set<Transaction>` is a set of values. */
  lemma LessIsStrictTotalOrder()
    ensures StrictTotalOrder(Less)
  {
    forall a, b
      ensures !Less(a, a) && (a == b || Less(a, b) || Less(b, a))
    {
      LessTrichotomy(a, b);
    }
    forall a, b, c | Less(a, b) && Less(b, c)
      ensures Less(a, c)
    {
      LessTransitive(a, b, c);
    }
  }

  /**
   The two comparisons agree in one direction only: what the ordered set identifies is identical,
   but `operator==` also identifies transactions that the set keeps apart, exactly when they differ
   in amount, hash or signature alone.
  */
  lemma EqualityIsCoarserThanOrder(a: Transaction, b: Transaction)
    ensures !Less(a, b) && !Less(b, a) ==> SameContent(a, b)
    ensures SameContent(a, b) ==>
      (Less(a, b) || Less(b, a) <==> a.amount != b.amount || a.hash != b.hash || a.signature != b.signature)
  {
    LessTrichotomy(a, b);
    LessTrichotomy(b, a);
  }

  /** A field as it is compared. */
  datatype Key =
    | Number(number: int)
    | Amount(amount: real)
    | Text(text: string)
    | Optional(meta: Option<string>)
    | Texts(texts: seq<string>)
    | Bytes(bytes: seq<Byte>)

  /** The fields in the order in which they decide. */
  function Keys(tx: Transaction): seq<Key> {
    [Number(tx.section), Number(tx.timestamp), Text(tx.hash), Text(tx.sender), Text(tx.receiver), Amount(tx.amount),
     Text(tx.token), Optional(tx.meta), Number(tx.kind.Code()), Texts(tx.prevHashes), Bytes(tx.signature)]
  }

  predicate KeyLess(a: Key, b: Key) {
    match (a, b)
    case (Number(x), Number(y)) => x < y
    case (Amount(x), Amount(y)) => x < y
    case (Text(x), Text(y)) => StringLess(x, y)
    case (Optional(x), Optional(y)) => MetaLess(x, y)
    case (Texts(x), Texts(y)) => LexLess(x, y, StringLess)
    case (Bytes(x), Bytes(y)) => LexLess(x, y, ByteLess)
    case _ => false
  }

  /** The first field in which two transactions differ decides, in this order of fields and no other. */
  lemma FirstDifferentKeyDecides(a: Transaction, b: Transaction, k: nat)
    requires k < 11 && forall j | 0 <= j < k :: Keys(a)[j] == Keys(b)[j]
    requires Keys(a)[k] != Keys(b)[k]
    ensures Less(a, b) <==> KeyLess(Keys(a)[k], Keys(b)[k])
  {
    var as_, bs := Keys(a), Keys(b);
    assert as_[k] != bs[k];
    assert k > 0 ==> as_[0] == bs[0];
    assert k > 1 ==> as_[1] == bs[1];
    assert k > 2 ==> as_[2] == bs[2];
    assert k > 3 ==> as_[3] == bs[3];
    assert k > 4 ==> as_[4] == bs[4];
    assert k > 5 ==> as_[5] == bs[5];
    assert k > 6 ==> as_[6] == bs[6];
    assert k > 7 ==> as_[7] == bs[7];
    assert k > 8 ==> as_[8] == bs[8];
    assert k > 9 ==> as_[9] == bs[9];
    hide LexLess;
  }
}
