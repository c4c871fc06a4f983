/**
 What the hash of a transaction is taken of (`calculate_hash`, sources/chain/transaction.cpp): its fields
 written one after the other, without separators or lengths.
*/
module TransactionHashing {
  import opened Wrappers
  import opened Hashing
  import opened Transactions

  /** How numbers are written. */
  datatype Rendering = Rendering(section: int -> string, amount: real -> string, timestamp: nat -> string)

  /** The decimal digits of the enumerator's value. */
  function CodeText(kind: TransactionType): string {
    match kind
    case Genesis => "0"
    case Regular => "1"
    case InitContract => "2"
    case Repeatable => "3"
    case Reward => "4"
    case Burn => "5"
    case Conversion => "6"
    case Minting => "7"
    case Balance => "99"
    case Unknown => "100"
  }

  function MetaText(tx: Transaction): string {
    if tx.meta.Some? then tx.meta.value else ""
  }

  function Flatten(texts: seq<string>): string {
    if |texts| == 0 then "" else Flatten(texts[..|texts| - 1]) + texts[|texts| - 1]
  }

  function FixedFields(r: Rendering, tx: Transaction): string {
    r.section(tx.section) + CodeText(tx.kind) + tx.sender + tx.receiver + tx.token
    + r.amount(tx.amount) + r.timestamp(tx.timestamp) + MetaText(tx)
  }

  function HashInput(r: Rendering, tx: Transaction): string {
    FixedFields(r, tx) + Flatten(tx.prevHashes)
  }

  method CalculateHash(h: Hasher, r: Rendering, tx: Transaction) returns (hash: Digest)
    ensures hash == h.digest(HashInput(r, tx))
  {
    var data := FixedFields(r, tx);
    for k := 0 to |tx.prevHashes|
      invariant data == FixedFields(r, tx) + Flatten(tx.prevHashes[..k])
    {
      assert tx.prevHashes[..k + 1][..k] == tx.prevHashes[..k];
      data := data + tx.prevHashes[k];
    }
    assert tx.prevHashes[..|tx.prevHashes|] == tx.prevHashes;
    hash := h.digest(data);
  }

  /** The fields in the order in which they are written. */
  function Fields(r: Rendering, tx: Transaction): seq<string> {
    [r.section(tx.section), CodeText(tx.kind), tx.sender, tx.receiver, tx.token,
     r.amount(tx.amount), r.timestamp(tx.timestamp), MetaText(tx)]
  }

  function Width(fields: seq<string>): nat {
    if |fields| == 0 then 0 else Width(fields[..|fields| - 1]) + |fields[|fields| - 1]|
  }

  lemma {:induction false} FieldAt(fields: seq<string>, k: nat)
    requires k < |fields|
    ensures |Flatten(fields)| == Width(fields) && Width(fields[..k]) + |fields[k]| <= Width(fields)
    ensures Flatten(fields)[Width(fields[..k])..Width(fields[..k]) + |fields[k]|] == fields[k]
  {
    var before, last := fields[..|fields| - 1], fields[|fields| - 1];
    if |before| == 0 {
      assert fields[..0] == [] && before == [];
    } else if k == |before| {
      FieldAt(before, k - 1);
    } else {
      FieldAt(before, k);
      assert before[..k] == fields[..k];
    }
  }

  /** Each field stands right after those before it, and the previous hashes stand last. */
  lemma FieldsStandInOrder(r: Rendering, tx: Transaction, k: nat)
    requires k < 8
    ensures
      var at := Width(Fields(r, tx)[..k]);
      at + |Fields(r, tx)[k]| <= |HashInput(r, tx)| && HashInput(r, tx)[at..at + |Fields(r, tx)[k]|] == Fields(r, tx)[k]
    ensures Width(Fields(r, tx)) <= |HashInput(r, tx)|
    ensures HashInput(r, tx)[Width(Fields(r, tx))..] == Flatten(tx.prevHashes)
  {
    var fields := Fields(r, tx);
    FieldsFlatten(r, tx);
    FieldAt(fields, k);
    var at := Width(fields[..k]);
    assert HashInput(r, tx)[at..at + |fields[k]|] == Flatten(fields)[at..at + |fields[k]|];
  }

  lemma FieldsFlatten(r: Rendering, tx: Transaction)
    ensures Flatten(Fields(r, tx)) == FixedFields(r, tx)
  {
    FlattenEight(
      r.section(tx.section), CodeText(tx.kind), tx.sender, tx.receiver, tx.token,
      r.amount(tx.amount), r.timestamp(tx.timestamp), MetaText(tx));
    hide Flatten, CodeText, MetaText;
  }

  lemma FlattenEight(a: string, b: string, c: string, d: string, e: string, f: string, g: string, i: string)
    ensures Flatten([a, b, c, d, e, f, g, i]) == a + b + c + d + e + f + g + i
  {
    FlattenFour(a, b, c, d);
    Appended([a, b, c, d], e);
    Appended([a, b, c, d, e], f);
    Appended([a, b, c, d, e, f], g);
    Appended([a, b, c, d, e, f, g], i);
    hide Flatten;
    assert [a, b, c, d] + [e] == [a, b, c, d, e] && [a, b, c, d, e] + [f] == [a, b, c, d, e, f];
    assert [a, b, c, d, e, f] + [g] == [a, b, c, d, e, f, g];
    assert [a, b, c, d, e, f, g] + [i] == [a, b, c, d, e, f, g, i];
  }

  lemma FlattenFour(a: string, b: string, c: string, d: string)
    ensures Flatten([a, b, c, d]) == a + b + c + d
  {
    Appended([], a);
    Appended([a], b);
    Appended([a, b], c);
    Appended([a, b, c], d);
    assert Flatten([]) == "";
    hide Flatten;
    assert [] + [a] == [a] && [a] + [b] == [a, b] && [a, b] + [c] == [a, b, c] && [a, b, c] + [d] == [a, b, c, d];
  }

  lemma Appended(texts: seq<string>, text: string)
    ensures Flatten(texts + [text]) == Flatten(texts) + text
  {
    assert (texts + [text])[..|texts|] == texts;
  }

  /** The two transactions are written with fields of the same widths, and numbers can be read back. */
  ghost predicate SameWidths(r: Rendering, a: Transaction, b: Transaction) {
    && |r.section(a.section)| == |r.section(b.section)| && |CodeText(a.kind)| == |CodeText(b.kind)|
    && |r.amount(a.amount)| == |r.amount(b.amount)| && |r.timestamp(a.timestamp)| == |r.timestamp(b.timestamp)|
    && |MetaText(a)| == |MetaText(b)|
    && (forall p | p in a.prevHashes || p in b.prevHashes :: |p| == DIGEST_LENGTH)
    && (r.section(a.section) == r.section(b.section) ==> a.section == b.section)
    && (r.amount(a.amount) == r.amount(b.amount) ==> a.amount == b.amount)
    && (r.timestamp(a.timestamp) == r.timestamp(b.timestamp) ==> a.timestamp == b.timestamp)
  }

  predicate SameHashedFields(a: Transaction, b: Transaction) {
    && a.section == b.section && a.kind == b.kind && a.sender == b.sender && a.receiver == b.receiver
    && a.token == b.token && a.amount == b.amount && a.timestamp == b.timestamp
    && MetaText(a) == MetaText(b) && a.prevHashes == b.prevHashes
  }

  lemma SplitAt(a: string, b: string, x: string, y: string)
    requires |a| == |b|
    ensures a + x == b + y <==> a == b && x == y
  {
    assert (a + x)[..|a|] == a && (a + x)[|a|..] == x;
    assert (b + y)[..|b|] == b && (b + y)[|b|..] == y;
  }

  lemma {:induction false} FlattenLength(xs: seq<string>)
    requires forall p | p in xs :: |p| == DIGEST_LENGTH
    ensures |Flatten(xs)| == DIGEST_LENGTH * |xs|
  {
    if |xs| > 0 {
      FlattenLength(xs[..|xs| - 1]);
    }
  }

  lemma {:induction false} FlattenInjective(xs: seq<string>, ys: seq<string>)
    requires forall p | p in xs || p in ys :: |p| == DIGEST_LENGTH
    requires Flatten(xs) == Flatten(ys)
    ensures xs == ys
  {
    FlattenLength(xs);
    FlattenLength(ys);
    if |xs| > 0 {
      var x, y := xs[|xs| - 1], ys[|ys| - 1];
      var xs', ys' := xs[..|xs| - 1], ys[..|ys| - 1];
      FlattenLength(xs');
      FlattenLength(ys');
      SplitAt(Flatten(xs'), Flatten(ys'), x, y);
      FlattenInjective(xs', ys');
      assert xs == xs' + [x] && ys == ys' + [y];
    }
  }

  lemma FixedFieldsInjective(r: Rendering, a: Transaction, b: Transaction)
    requires SameWidths(r, a, b)
    ensures |FixedFields(r, a)| == |FixedFields(r, b)|
    ensures FixedFields(r, a) == FixedFields(r, b) ==> SameHashedFields(a, b.(prevHashes := a.prevHashes))
  {
    var a1 := r.section(a.section) + CodeText(a.kind);
    var b1 := r.section(b.section) + CodeText(b.kind);
    var a2, b2 := a1 + a.sender, b1 + b.sender;
    var a3, b3 := a2 + a.receiver, b2 + b.receiver;
    var a4, b4 := a3 + a.token, b3 + b.token;
    var a5, b5 := a4 + r.amount(a.amount), b4 + r.amount(b.amount);
    var a6, b6 := a5 + r.timestamp(a.timestamp), b5 + r.timestamp(b.timestamp);
    SplitAt(a6, b6, MetaText(a), MetaText(b));
    SplitAt(a5, b5, r.timestamp(a.timestamp), r.timestamp(b.timestamp));
    SplitAt(a4, b4, r.amount(a.amount), r.amount(b.amount));
    SplitAt(a3, b3, a.token, b.token);
    SplitAt(a2, b2, a.receiver, b.receiver);
    SplitAt(a1, b1, a.sender, b.sender);
    SplitAt(r.section(a.section), r.section(b.section), CodeText(a.kind), CodeText(b.kind));
  }

  /**
   Between transactions written with the same widths, what is hashed determines every field but the
   signature, and an empty meta and a missing one are the same.
  */
  lemma HashInputCommits(r: Rendering, a: Transaction, b: Transaction)
    requires SameWidths(r, a, b)
    ensures HashInput(r, a) == HashInput(r, b) <==> SameHashedFields(a, b)
  {
    FixedFieldsInjective(r, a, b);
    SplitAt(FixedFields(r, a), FixedFields(r, b), Flatten(a.prevHashes), Flatten(b.prevHashes));
    if HashInput(r, a) == HashInput(r, b) {
      FlattenInjective(a.prevHashes, b.prevHashes);
    }
  }

  /** Across widths it does not: a previous hash and a meta of the same text are hashed alike. */
  lemma WidthsMatter(r: Rendering, tx: Transaction, text: Digest)
    ensures
      var a, b := tx.(meta := Some(text), prevHashes := []), tx.(meta := None, prevHashes := [text]);
      HashInput(r, a) == HashInput(r, b) && !SameContent(a, b) && !SameHashedFields(a, b)
  {
    assert Flatten([text]) == text by { assert [text][..0] == []; }
    assert Flatten([]) == "";
  }
}
