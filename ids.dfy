/**
 Thread identities of the picoThread library: the process-wide 32-bit counter
 from which every `thread::id` is drawn, and the value type `thread::id` with
 its six comparison operators.
 */
module ThreadIds {

  /** Number of values of a `uint32_t`. */
  const U32: int := 0x1_0000_0000

  /** The counter's and an id's representation, `uint32_t`. */
  newtype Uint32 = x: int | 0 <= x < U32

  /** `_nextId++` on a `uint32_t`: one more, and 0 after the largest value. */
  function NextCounter(n: Uint32): (r: Uint32)
    ensures n as int + 1 < U32 ==> r as int == n as int + 1
    ensures n as int + 1 == U32 ==> r == 0
    ensures r as int == (n as int + 1) % U32
  {
    if n as int + 1 == U32 then 0 else n + 1
  }

  /** A `thread::id`: an opaque wrapper around one counter value. */
  datatype Id = Id(value: Uint32) {

    /** `operator==`: equal values mean the very same identity. */
    function Eq(other: Id): (r: bool)
      ensures r <==> this == other
    {
      value == other.value
    }

    /** `operator!=`: the negation of `operator==`. */
    function Ne(other: Id): (r: bool)
      ensures r <==> !Eq(other)
    {
      value != other.value
    }

    /**
     `operator<`: the order of the underlying counter values; no id is below
     itself. `IdOrderIsTotal` proves that it is a strict total order.
     */
    function Lt(other: Id): (r: bool)
      ensures r ==> !Eq(other)
    {
      value < other.value
    }

    /** `operator>`: `a > b` exactly when `b < a`. */
    function Gt(other: Id): (r: bool)
      ensures r <==> other.Lt(this)
    {
      value > other.value
    }

    /** `operator<=`: less or equal. */
    function Le(other: Id): (r: bool)
      ensures r <==> Lt(other) || Eq(other)
    {
      value <= other.value
    }

    /** `operator>=`: the converse of `operator<=`. */
    function Ge(other: Id): (r: bool)
      ensures r <==> other.Le(this)
      ensures r <==> Gt(other) || Eq(other)
    {
      value >= other.value
    }
  }

  /** `operator<` is a strict total order on ids. */
  lemma IdOrderIsTotal(a: Id, b: Id, c: Id)
    ensures !a.Lt(a)
    ensures a.Lt(b) && b.Lt(c) ==> a.Lt(c)
    ensures a.Lt(b) ==> !b.Lt(a)
    ensures a.Lt(b) || a.Eq(b) || b.Lt(a)
  {
  }

  /**
   The ids that `n` successive spawns hand to their handles when the counter
   starts at `c`. Every spawn takes the counter's current value for its handle
   and consumes one more value for the default-constructed id of its queue
   record, so it advances the counter by two.
   */
  function SpawnIds(c: Uint32, n: nat): (r: seq<Id>)
    decreases n
    ensures |r| == n
  {
    if n == 0 then [] else [Id(c)] + SpawnIds(NextCounter(NextCounter(c)), n - 1)
  }

  /**
   As long as the counter does not wrap, the ids handed out by successive
   spawns are two apart, hence strictly increasing and pairwise distinct.
   */
  lemma {:induction false} SpawnIdsIncreasing(c: Uint32, n: nat)
    requires c as int + 2 * n <= U32
    decreases n
    ensures |SpawnIds(c, n)| == n
    ensures forall k :: 0 <= k < n ==> SpawnIds(c, n)[k].value as int == c as int + 2 * k
    ensures forall j, k :: 0 <= j < k < n ==> SpawnIds(c, n)[j].Lt(SpawnIds(c, n)[k])
    ensures forall j, k :: 0 <= j < k < n ==> SpawnIds(c, n)[j].Ne(SpawnIds(c, n)[k])
  {
    if n > 0 {
      var c' := NextCounter(NextCounter(c));
      if n > 1 {
        assert c' as int == c as int + 2;
      }
      SpawnIdsIncreasing(c', n - 1);
      var s := SpawnIds(c, n);
      assert s == [Id(c)] + SpawnIds(c', n - 1);
      forall k | 0 <= k < n
        ensures s[k].value as int == c as int + 2 * k
      {
        if k > 0 {
          assert s[k] == SpawnIds(c', n - 1)[k - 1];
        }
      }
    }
  }

  /**
   With no bound on the counter: the k-th of n successive spawns gets the
   counter value c + 2k reduced modulo 2^32.
   */
  lemma {:induction false} SpawnIdsModulo(c: Uint32, n: nat)
    decreases n
    ensures |SpawnIds(c, n)| == n
    ensures forall k :: 0 <= k < n ==> SpawnIds(c, n)[k].value as int == (c as int + 2 * k) % U32
  {
    if n > 0 {
      var c' := NextCounter(NextCounter(c));
      assert c' as int == (c as int + 2) % U32;
      SpawnIdsModulo(c', n - 1);
      var s := SpawnIds(c, n);
      assert s == [Id(c)] + SpawnIds(c', n - 1);
      forall k | 0 <= k < n
        ensures s[k].value as int == (c as int + 2 * k) % U32
      {
        if k > 0 {
          assert s[k] == SpawnIds(c', n - 1)[k - 1];
          if c as int + 2 < U32 {
            assert c' as int == c as int + 2;
          } else {
            assert c' as int == c as int + 2 - U32;
            ModuloShift(c as int + 2 * k - U32);
          }
        }
      }
    }
  }

  /** Adding 2^32 does not change a value modulo 2^32. */
  lemma ModuloShift(x: int)
    requires 0 <= x
    ensures (x + U32) % U32 == x % U32
  {
  }

  /**
   Ids repeat once the counter wraps: the spawn 2^31 places after a handle
   that got id c gets id c again.
   */
  lemma SpawnIdsRepeatAfterWrap(c: Uint32)
    ensures |SpawnIds(c, U32 / 2 + 1)| == U32 / 2 + 1
    ensures SpawnIds(c, U32 / 2 + 1)[U32 / 2] == Id(c)
    ensures SpawnIds(c, U32 / 2 + 1)[U32 / 2].Eq(SpawnIds(c, U32 / 2 + 1)[0])
  {
    SpawnIdsModulo(c, U32 / 2 + 1);
    ModuloShift(c as int);
  }
}
