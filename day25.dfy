/** Day 25: the handshake of a card and a door (src/day25.rs). Transforming
    a subject number yields 1, then each previous value times the subject
    modulo 20201227; the loop size of a public key is the number of steps
    after which the transform of 7 reaches that key. */
module Day25 {
  import opened Util

  /** The modulus of every transform step. */
  const LoopMod: int := 20201227

  /** The subject number of the public keys. */
  const PublicSubject: int := 7

  /** What `Transform::from(s)` yields at position `k` (counting from 0):
      1 first, then each earlier item times `s`, reduced as `mod_floor`
      does, so every later item lies in 0 to 20201226. */
  function Item(s: int, k: nat): (r: int)
    ensures k == 0 ==> r == 1
    ensures k > 0 ==> 0 <= r < LoopMod
  {
    if k == 0 then 1 else (Item(s, k - 1) * s) % LoopMod
  }

  /** Reducing a factor first does not change the remainder of a
      product. */
  lemma ModMulLeft(a: int, b: int, m: int)
    requires m > 0
    ensures ((a % m) * b) % m == (a * b) % m
  {
    var q := a / m;
    assert a == q * m + a % m;
    assert a * b == (a % m) * b + (q * b) * m by {
      assert a * b == (q * m + a % m) * b;
      assert (q * m + a % m) * b == (q * m) * b + (a % m) * b;
      assert (q * m) * b == (q * b) * m;
    }
    AddMultiple((a % m) * b, q * b, m);
  }

  /** The `k`-th item of the transform of `s` is `s` to the power `k`
      modulo 20201227. */
  lemma {:induction false} ItemIsPow(s: int, k: nat)
    ensures Item(s, k) == Pow(s, k) % LoopMod
  {
    if k > 0 {
      ItemIsPow(s, k - 1);
      ModMulLeft(Pow(s, k - 1), s, LoopMod);
    }
  }

  /** `Transform`: the subject number and the value the next call
      yields. */
  class Transform {
    var subjectNumber: int
    var value: int

    /** `Transform::from`. */
    constructor From(subjectNumber: int)
      ensures this.subjectNumber == subjectNumber && value == 1
    {
      this.subjectNumber := subjectNumber;
      value := 1;
    }

    /** `next`: yields the current value and keeps the next one; the
        subject number stays. */
    method Next() returns (r: Option<int>)
      modifies this
      ensures r == Some(old(value))
      ensures subjectNumber == old(subjectNumber)
      ensures value == (old(value) * subjectNumber) % LoopMod
    {
      var future := (value * subjectNumber) % LoopMod;
      future, value := value, future;
      r := Some(future);
    }
  }

  /** `k` is the loop size of `key`: the first position at which the
      transform of 7 yields `key`. */
  ghost predicate IsLoopSize(key: int, k: nat)
  {
    Item(PublicSubject, k) == key && forall j :: 0 <= j < k ==> Item(PublicSubject, j) != key
  }

  /** A key has at most one loop size. */
  lemma LoopSizeUnique(key: int, a: nat, b: nat)
    requires IsLoopSize(key, a) && IsLoopSize(key, b)
    ensures a == b
  {
  }

  /** `find_loop_size`: enumerates the transform of 7 until it yields the
      key. The search ends only when some position yields the key. */
  method FindLoopSize(publicKey: int) returns (r: nat)
    requires exists k: nat :: Item(PublicSubject, k) == publicKey
    ensures IsLoopSize(publicKey, r)
  {
    ghost var bound: nat :| Item(PublicSubject, bound) == publicKey;
    var transform := new Transform.From(PublicSubject);
    var c: nat := 0;
    while true
      invariant transform.subjectNumber == PublicSubject
      invariant transform.value == Item(PublicSubject, c)
      invariant forall j :: 0 <= j < c ==> Item(PublicSubject, j) != publicKey
      invariant c <= bound
      decreases bound - c
    {
      var n := transform.Next();
      if n.value == publicKey {
        return c;
      }
      c := c + 1;
    }
  }

  /** `find_encryption_key`: as written it finds both loop sizes and
      returns the card's, a placeholder for the key. Both searches must
      end, so both keys must appear in the transform of 7. */
  method FindEncryptionKey(cardPublic: int, doorPublic: int) returns (r: nat)
    requires exists k: nat :: Item(PublicSubject, k) == cardPublic
    requires exists k: nat :: Item(PublicSubject, k) == doorPublic
    ensures IsLoopSize(cardPublic, r)
  {
    var cardLoop := FindLoopSize(cardPublic);
    var doorLoop := FindLoopSize(doorPublic);
    r := cardLoop;
  }

  /** The transform of 7 from position 0 to 11. */
  lemma PublicItems()
    ensures Item(PublicSubject, 0) == 1 && Item(PublicSubject, 1) == 7
    ensures Item(PublicSubject, 2) == 49 && Item(PublicSubject, 3) == 343
    ensures Item(PublicSubject, 4) == 2401 && Item(PublicSubject, 5) == 16807
    ensures Item(PublicSubject, 6) == 117649 && Item(PublicSubject, 7) == 823543
    ensures Item(PublicSubject, 8) == 5764801 && Item(PublicSubject, 9) == 20152380
    ensures Item(PublicSubject, 10) == 19859298 && Item(PublicSubject, 11) == 17807724
  {
  }

  /** The loop sizes of `test_loop_size`. */
  lemma LoopSizeExamples()
    ensures IsLoopSize(5764801, 8)
    ensures IsLoopSize(17807724, 11)
  {
    PublicItems();
    forall j | 0 <= j < 11
      ensures Item(PublicSubject, j) != 17807724 && (j < 8 ==> Item(PublicSubject, j) != 5764801)
    {
      assert j == 0 || j == 1 || j == 2 || j == 3 || j == 4 || j == 5 || j == 6 || j == 7 || j == 8 || j == 9 || j == 10;
    }
  }

  /** `test_loop_size`. */
  method LoopSizeTest() returns (card: nat, door: nat)
    ensures card == 8 && door == 11
  {
    LoopSizeExamples();
    card := FindLoopSize(5764801);
    LoopSizeUnique(5764801, card, 8);
    door := FindLoopSize(17807724);
    LoopSizeUnique(17807724, door, 11);
  }
}
