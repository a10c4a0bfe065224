/** The symbol table: a fixed-capacity hash table with separate chaining.
    A key's position is (bucket, offset in the bucket's chain), and that
    position is part of the scanner's output, so the order of each chain
    is observable. A chain is modelled as the sequence of its keys. */
module HashTable {
  import opened StringUtils
  import opened Decimal

  /** `(bucket, offset)`; `(-1, -1)` stands for "not found". */
  datatype Position = Position(bucket: int, offset: int)

  const Missing := Position(-1, -1)

  datatype Table = Table(buckets: seq<seq<string>>)

  predicate Valid(t: Table)
  {
    |t.buckets| > 0
  }

  /** `HashTable(size)`: `size` empty buckets. */
  function New(size: nat): (t: Table)
    requires size > 0
    ensures Valid(t) && |t.buckets| == size
    ensures forall i :: 0 <= i < size ==> t.buckets[i] == []
  {
    Table(seq(size, _ => []))
  }

  /** The value of a byte read as a (signed) `char`: the codes 128 to 255
      count as -128 to -1. */
  function SignedCode(c: char): (v: int)
    ensures -128 <= v < 128
    ensures c as int < 128 ==> v == c as int
    ensures 128 <= c as int < 256 ==> v == c as int - 256
  {
    var b := c as int % 256;
    if b < 128 then b else b - 256
  }

  /** Sum of the signed character codes. It is negative only when the key
      holds bytes of 128 or above. */
  function CodeSum(key: string): (n: int)
    ensures IsAscii(key) ==> n >= 0
  {
    if |key| == 0 then 0
    else
      var front, last := key[..|key| - 1], key[|key| - 1];
      assert IsAscii(key) ==> IsAscii(front) && last as int < 128 by {
        assert forall c :: c in front ==> c in key;
        assert last in key;
      }
      CodeSum(front) + SignedCode(last)
  }

  /** C++ `%` on `int`: the remainder takes the sign of the dividend. */
  function CRem(a: int, m: int): (r: int)
    requires m > 0
    ensures a >= 0 ==> 0 <= r < m
    ensures a < 0 ==> -m < r <= 0
  {
    if a >= 0 then a % m else -((-a) % m)
  }

  /** The bucket of a key. Where the source's index is well defined (the
      code sum is not negative) this is `hashFunction`; for a negative sum
      the source indexes the table with a negative number, and the model
      takes the non-negative residue instead. */
  function Hash(key: string, capacity: nat): (h: nat)
    requires capacity > 0
    ensures h < capacity
    ensures CodeSum(key) >= 0 ==> h == CRem(CodeSum(key), capacity)
  {
    CodeSum(key) % capacity
  }

  /** The summing loop of `hashFunction`, with `char` signed and `%`
      truncating: the index is the C++ remainder of the signed code sum,
      in `[0, capacity)` whenever the sum is not negative, as it is for
      every 7-bit key. */
  method HashFunction(key: string, capacity: nat) returns (index: int)
    requires capacity > 0
    ensures index == CRem(CodeSum(key), capacity)
    ensures CodeSum(key) >= 0 ==> index == Hash(key, capacity)
    ensures index < 0 ==> !IsAscii(key)
    ensures IsAscii(key) ==> 0 <= index < capacity
  {
    var sum := 0;
    var i := 0;
    while i < |key|
      invariant 0 <= i <= |key|
      invariant sum == CodeSum(key[..i])
    {
      assert key[..i + 1][..i] == key[..i];
      sum := sum + SignedCode(key[i]);
      i := i + 1;
    }
    assert key[..|key|] == key;
    index := CRem(sum, capacity);
  }

  /** The code sum of a concatenation is the sum of the parts' sums. */
  lemma {:induction false} CodeSumConcat(a: string, b: string)
    ensures CodeSum(a + b) == CodeSum(a) + CodeSum(b)
    decreases |b|
  {
    if |b| == 0 {
      assert a + b == a;
    } else {
      assert (a + b)[..|a + b| - 1] == a + b[..|b| - 1];
      CodeSumConcat(a, b[..|b| - 1]);
    }
  }

  /** The code sum ignores the order of the characters: keys that are
      rearrangements of one another always share a bucket. */
  lemma {:induction false} CodeSumPermutation(a: string, b: string)
    requires multiset(a) == multiset(b)
    ensures CodeSum(a) == CodeSum(b)
    ensures forall capacity: nat :: capacity > 0 ==> Hash(a, capacity) == Hash(b, capacity)
    decreases |a|
  {
    if |a| == 0 {
      assert |b| == |multiset(b)| == 0;
    } else {
      var front := a[..|a| - 1];
      var c := a[|a| - 1];
      assert a == front + [c];
      assert c in multiset(b);
      var i :| 0 <= i < |b| && b[i] == c;
      var rest := b[..i] + b[i + 1..];
      assert b == b[..i] + [c] + b[i + 1..];
      assert multiset(rest) == multiset(b) - multiset{c};
      assert multiset(front) == multiset(a) - multiset{c};
      CodeSumPermutation(front, rest);
      CodeSumConcat(b[..i] + [c], b[i + 1..]);
      CodeSumConcat(b[..i], [c]);
      CodeSumConcat(b[..i], b[i + 1..]);
      assert CodeSum([c]) == SignedCode(c) by {
        assert [c][..0] == [];
      }
    }
  }

  function BucketOf(t: Table, key: string): nat
    requires Valid(t)
  {
    Hash(key, |t.buckets|)
  }

  /** The chain a key belongs to. */
  function Chain(t: Table, key: string): seq<string>
    requires Valid(t)
  {
    t.buckets[BucketOf(t, key)]
  }

  /** `insert(key)`: appended at the end of its bucket's chain. The table
      does not deduplicate. */
  function Insert(t: Table, key: string): (r: Table)
    requires Valid(t)
    ensures Valid(r) && |r.buckets| == |t.buckets|
    ensures Chain(r, key) == Chain(t, key) + [key]
    ensures forall i :: 0 <= i < |t.buckets| && i != BucketOf(t, key) ==> r.buckets[i] == t.buckets[i]
  {
    var h := BucketOf(t, key);
    Table(t.buckets[h := t.buckets[h] + [key]])
  }

  /** `searchElem(key)`: the bucket and the offset of the first
      occurrence in its chain, or `(-1, -1)`. */
  function SearchElem(t: Table, key: string): (p: Position)
    requires Valid(t)
    ensures p == Missing <==> key !in Chain(t, key)
    ensures p != Missing ==>
      && p.bucket == BucketOf(t, key)
      && 0 <= p.offset < |Chain(t, key)|
      && Chain(t, key)[p.offset] == key
      && forall j :: 0 <= j < p.offset ==> Chain(t, key)[j] != key
  {
    var chain := Chain(t, key);
    var i := IndexOf(chain, key);
    if i < |chain| then Position(BucketOf(t, key), i) else Missing
  }

  /** `exists(key)`: holds exactly when `searchElem` finds the key. */
  function Exists(t: Table, key: string): (b: bool)
    requires Valid(t)
    ensures b <==> SearchElem(t, key) != Missing
  {
    key in Chain(t, key)
  }

  /** The linked-list walk of `searchElem`, counting the offset. */
  method SearchChain(t: Table, key: string) returns (p: Position)
    requires Valid(t)
    ensures p == SearchElem(t, key)
  {
    var index := BucketOf(t, key);
    var chain := t.buckets[index];
    var position := 0;
    while position < |chain|
      invariant 0 <= position <= |chain|
      invariant forall j :: 0 <= j < position ==> chain[j] != key
    {
      if chain[position] == key {
        return Position(index, position);
      }
      position := position + 1;
    }
    return Missing;
  }

  /** `remove(key)`: unlinks the first node holding `key`; an absent key
      leaves the table as it is (the source only prints a message). */
  function Remove(t: Table, key: string): (r: Table)
    requires Valid(t)
    ensures Valid(r) && |r.buckets| == |t.buckets|
    ensures forall i :: 0 <= i < |t.buckets| && i != BucketOf(t, key) ==> r.buckets[i] == t.buckets[i]
    ensures !Exists(t, key) ==> r == t
    ensures Exists(t, key) ==> var p := SearchElem(t, key);
      Chain(r, key) == Chain(t, key)[..p.offset] + Chain(t, key)[p.offset + 1..]
  {
    var h := BucketOf(t, key);
    var chain := t.buckets[h];
    var i := IndexOf(chain, key);
    if i < |chain| then Table(t.buckets[h := chain[..i] + chain[i + 1..]]) else t
  }

  /** `insert(int)`: inserts the decimal text of the number. */
  function InsertInt(t: Table, n: int): (r: Table)
    requires Valid(t)
    requires -0x8000_0000 <= n < 0x8000_0000
    ensures Valid(r) && Exists(r, IntToString(n))
  {
    var r := Insert(t, IntToString(n));
    assert Chain(r, IntToString(n)) == Chain(t, IntToString(n)) + [IntToString(n)];
    r
  }

  // ---------------------------------------------------------------------
  // Insertion

  /** After inserting an absent key it exists, at the end of its chain. */
  lemma InsertAbsentThenSearch(t: Table, key: string)
    requires Valid(t) && !Exists(t, key)
    ensures Exists(Insert(t, key), key)
    ensures SearchElem(Insert(t, key), key) == Position(BucketOf(t, key), |Chain(t, key)|)
  {
    var r := Insert(t, key);
    assert Chain(r, key) == Chain(t, key) + [key];
    assert Chain(r, key)[|Chain(t, key)|] == key;
  }

  /** Inserting a key that is already there adds a second node behind the
      first; `searchElem` keeps reporting the first. */
  lemma InsertPresentKeepsPosition(t: Table, key: string)
    requires Valid(t) && Exists(t, key)
    ensures SearchElem(Insert(t, key), key) == SearchElem(t, key)
    ensures multiset(Chain(Insert(t, key), key))[key] == multiset(Chain(t, key))[key] + 1
  {
    var r := Insert(t, key);
    assert Chain(r, key) == Chain(t, key) + [key];
    var p := SearchElem(t, key);
    var q := SearchElem(r, key);
    assert Chain(r, key)[p.offset] == key;
    assert q.offset <= p.offset;
  }

  /** Insertion never moves a key that is already stored. */
  lemma InsertKeepsOtherPositions(t: Table, key: string, other: string)
    requires Valid(t) && Exists(t, other) && other != key
    ensures SearchElem(Insert(t, key), other) == SearchElem(t, other)
  {
    var r := Insert(t, key);
    if BucketOf(t, other) == BucketOf(t, key) {
      assert Chain(r, other) == Chain(t, other) + [key];
      var p := SearchElem(t, other);
      assert Chain(r, other)[p.offset] == other;
    }
  }

  /** Two distinct absent keys sharing a bucket, inserted one after the
      other, sit at consecutive offsets. */
  lemma ConsecutiveOffsets(t: Table, k1: string, k2: string)
    requires Valid(t) && k1 != k2 && !Exists(t, k1) && !Exists(t, k2)
    requires BucketOf(t, k1) == BucketOf(t, k2)
    ensures var r := Insert(Insert(t, k1), k2);
      SearchElem(r, k2).offset == SearchElem(r, k1).offset + 1
  {
    var t1 := Insert(t, k1);
    InsertAbsentThenSearch(t, k1);
    assert !Exists(t1, k2) by {
      assert Chain(t1, k2) == Chain(t, k2) + [k1];
    }
    InsertAbsentThenSearch(t1, k2);
    InsertKeepsOtherPositions(t1, k2, k1);
    assert |Chain(t1, k2)| == |Chain(t, k1)| + 1;
  }

  /** Removing a key that was just inserted into a table without it
      restores the table. */
  lemma RemoveUndoesInsert(t: Table, key: string)
    requires Valid(t) && !Exists(t, key)
    ensures Remove(Insert(t, key), key) == t
  {
    var r := Insert(t, key);
    var h := BucketOf(t, key);
    var chain := t.buckets[h];
    InsertAbsentThenSearch(t, key);
    assert r.buckets[h] == chain + [key];
    assert IndexOf(r.buckets[h], key) == |chain|;
    assert (chain + [key])[..|chain|] + (chain + [key])[|chain| + 1..] == chain;
    assert Remove(r, key).buckets == r.buckets[h := chain];
    assert r.buckets[h := chain] == t.buckets;
  }

  /** The inserted decimal text reads back as the number. */
  lemma InsertIntRoundTrip(t: Table, n: int)
    requires Valid(t) && -0x8000_0000 <= n < 0x8000_0000
    ensures var key := IntToString(n);
      AllDigits(if key[0] == '-' then key[1..] else key) && ParseInt(key) == n
      && SearchElem(InsertInt(t, n), key) != Missing
  {
    IntToStringRoundTrip(n);
  }

  // ---------------------------------------------------------------------
  // The symbol-table invariant kept by the scanner

  predicate Distinct(chain: seq<string>)
  {
    forall i, j :: 0 <= i < j < |chain| ==> chain[i] != chain[j]
  }

  /** Every key sits in its own bucket and no chain holds a key twice. */
  predicate WellFormed(t: Table)
  {
    && Valid(t)
    && (forall i :: 0 <= i < |t.buckets| ==> Distinct(t.buckets[i]))
    && (forall i, k :: 0 <= i < |t.buckets| && k in t.buckets[i] ==> BucketOf(t, k) == i)
  }

  /** Inserting only absent keys keeps every key unique. */
  lemma InsertAbsentWellFormed(t: Table, key: string)
    requires WellFormed(t) && !Exists(t, key)
    ensures WellFormed(Insert(t, key))
  {
    var r := Insert(t, key);
    var h := BucketOf(t, key);
    assert r.buckets[h] == t.buckets[h] + [key];
    assert key !in t.buckets[h];
    forall i, k | 0 <= i < |r.buckets| && k in r.buckets[i]
      ensures BucketOf(r, k) == i
    {
      assert BucketOf(r, k) == BucketOf(t, k);
      if k != key || i != h {
        assert k in t.buckets[i];
      }
    }
  }

  /** In a well-formed table a key occurs at most once. */
  lemma WellFormedOnce(t: Table, key: string)
    requires WellFormed(t)
    ensures multiset(Chain(t, key))[key] <= 1
    ensures forall i :: 0 <= i < |t.buckets| && i != BucketOf(t, key) ==> key !in t.buckets[i]
  {
    var chain := Chain(t, key);
    MultisetDistinct(chain, key);
  }

  lemma {:induction false} MultisetDistinct(chain: seq<string>, key: string)
    requires Distinct(chain)
    ensures multiset(chain)[key] <= 1
    decreases |chain|
  {
    if |chain| > 0 {
      assert chain == [chain[0]] + chain[1..];
      assert Distinct(chain[1..]);
      MultisetDistinct(chain[1..], key);
      if chain[0] == key {
        assert key !in chain[1..];
      }
    }
  }

  // ---------------------------------------------------------------------
  // display

  /** `v1 <-> v2 <-> ... ` for one chain. */
  function ChainText(chain: seq<string>): string
  {
    if |chain| == 0 then "" else chain[0] + " <-> " + ChainText(chain[1..])
  }

  /** One line of the dump, without its line break. */
  function BucketLine(index: nat, chain: seq<string>): string
  {
    "Bucket " + NatToString(index) + ": " + ChainText(chain) + "NULL"
  }

  function DisplayFrom(buckets: seq<seq<string>>, index: nat): string
    decreases |buckets|
  {
    if |buckets| == 0 then ""
    else BucketLine(index, buckets[0]) + "\n" + DisplayFrom(buckets[1..], index + 1)
  }

  /** No stored key holds a line break. */
  predicate KeysOnOneLine(buckets: seq<seq<string>>)
  {
    forall i, k :: 0 <= i < |buckets| && k in buckets[i] ==> '\n' !in k
  }

  /** `display()`: with keys free of line breaks, the dump splits into
      exactly one `Bucket i: v1 <-> ... <-> NULL` line per bucket, in index
      order. */
  function Display(t: Table): (text: string)
    ensures KeysOnOneLine(t.buckets) ==>
      var lines := Tokenize(text, '\n');
      && |lines| == |t.buckets|
      && forall i :: 0 <= i < |t.buckets| ==> lines[i] == BucketLine(i, t.buckets[i])
  {
    DisplayShape(t.buckets);
    DisplayFrom(t.buckets, 0)
  }

  /** The dump's lines from bucket `index` on, without line breaks. */
  function LinesFrom(buckets: seq<seq<string>>, index: nat): (lines: seq<string>)
    ensures |lines| == |buckets|
    ensures forall i :: 0 <= i < |buckets| ==> lines[i] == BucketLine(index + i, buckets[i])
    decreases |buckets|
  {
    if |buckets| == 0 then []
    else [BucketLine(index, buckets[0])] + LinesFrom(buckets[1..], index + 1)
  }

  lemma DisplayShape(buckets: seq<seq<string>>)
    ensures KeysOnOneLine(buckets) ==>
      var lines := Tokenize(DisplayFrom(buckets, 0), '\n');
      && |lines| == |buckets|
      && forall i :: 0 <= i < |buckets| ==> lines[i] == BucketLine(i, buckets[i])
  {
    if KeysOnOneLine(buckets) {
      var lines := LinesFrom(buckets, 0);
      DisplayFromLines(buckets, 0);
      forall i | 0 <= i < |lines|
        ensures '\n' !in lines[i]
      {
        LineNoBreak(i, buckets[i]);
      }
      TokenizeTerminated(lines, '\n');
    }
  }

  lemma {:induction false} DisplayFromLines(buckets: seq<seq<string>>, index: nat)
    ensures DisplayFrom(buckets, index) == JoinTerminated(LinesFrom(buckets, index), '\n')
    decreases |buckets|
  {
    if |buckets| > 0 {
      DisplayFromLines(buckets[1..], index + 1);
      assert LinesFrom(buckets, index)[1..] == LinesFrom(buckets[1..], index + 1);
    }
  }

  lemma {:induction false} LineNoBreak(index: nat, chain: seq<string>)
    requires forall k :: k in chain ==> '\n' !in k
    ensures '\n' !in BucketLine(index, chain)
  {
    ChainTextNoBreak(chain);
    var digits := NatToString(index);
    assert forall c :: c in digits ==> IsDigit(c) by {
      forall c | c in digits ensures IsDigit(c) {
        var j :| 0 <= j < |digits| && digits[j] == c;
      }
    }
  }

  lemma {:induction false} ChainTextNoBreak(chain: seq<string>)
    requires forall k :: k in chain ==> '\n' !in k
    ensures '\n' !in ChainText(chain)
    decreases |chain|
  {
    if |chain| > 0 {
      assert chain[0] in chain;
      assert forall k :: k in chain[1..] ==> k in chain;
      ChainTextNoBreak(chain[1..]);
    }
  }
}
