/** Types shared by the models: optional values, fallible results, and bytes. */
module Wrappers {
  datatype Option<+T> = None | Some(value: T)

  /** The Go idiom `(value, error)`: exactly one of the two is meaningful. */
  datatype Result<+T, +E> = Ok(value: T) | Err(error: E) {
    predicate IsFailure() { Err? }

    function PropagateFailure<U>(): Result<U, E>
      requires Err?
    {
      Err(error)
    }

    function Extract(): T
      requires Ok?
    {
      value
    }
  }

  type byte = x: int | 0 <= x < 256

  /** The last `n` elements of `s`, or all of `s` when it is shorter. */
  function LastN<T>(s: seq<T>, n: nat): (r: seq<T>)
    ensures |r| == if |s| <= n then |s| else n
  {
    if |s| <= n then s else s[|s| - n..]
  }

  /** They are the end of `s`, in order. */
  lemma LastNIsEnd<T>(s: seq<T>, n: nat)
    ensures LastN(s, n) == if n < |s| then s[|s| - n..] else s
  {
  }

  /** No element occurs twice. */
  ghost predicate Distinct<T>(s: seq<T>) {
    forall i, j | 0 <= i < j < |s| :: s[i] != s[j]
  }
}

/** Big-endian numbers, as read and written by `encoding/binary`. */
module BigEndian {
  import opened Wrappers

  function Pow256(k: nat): (p: nat)
    ensures p >= 1
  {
    if k == 0 then 1 else 256 * Pow256(k - 1)
  }

  lemma {:induction false} PowMonotone(j: nat, k: nat)
    requires j <= k
    ensures Pow256(j) <= Pow256(k)
    ensures 0 < k ==> Pow256(k) % 2 == 0
  {
    if j < k {
      PowMonotone(j, k - 1);
    }
  }

  function Get(s: seq<byte>): nat {
    if s == [] then 0 else 256 * Get(s[..|s| - 1]) + s[|s| - 1]
  }

  /** The low `k` bytes of `v`; higher bytes are dropped, as a Go integer conversion does. */
  function Put(k: nat, v: nat): (s: seq<byte>)
    ensures |s| == k
  {
    if k == 0 then [] else Put(k - 1, v / 256) + [v % 256]
  }

  /** `v` as truncated to `k` bytes. */
  function Low(k: nat, v: nat): nat {
    if k == 0 then 0 else 256 * Low(k - 1, v / 256) + v % 256
  }

  lemma {:induction false} GetPut(k: nat, v: nat)
    ensures Get(Put(k, v)) == Low(k, v)
  {
    if k > 0 {
      GetPut(k - 1, v / 256);
      assert Put(k, v)[..k - 1] == Put(k - 1, v / 256);
    }
  }

  lemma {:induction false} LowOfSmall(k: nat, v: nat)
    requires v < Pow256(k)
    ensures Low(k, v) == v
  {
    if k > 0 {
      LowOfSmall(k - 1, v / 256);
    }
  }

  /** The first byte is the highest. */
  lemma {:induction false} GetFirst(s: seq<byte>)
    requires s != []
    ensures Get(s) == s[0] * Pow256(|s| - 1) + Get(s[1..])
  {
    if |s| == 1 {
      assert s[..0] == [] && s[1..] == [];
    } else {
      var front, last := s[..|s| - 1], s[|s| - 1];
      GetFirst(front);
      assert s[1..][..|s| - 2] == front[1..];
      Times256(s[0], Pow256(|s| - 2));
    }
  }

  lemma Times256(a: nat, p: nat)
    ensures 256 * (a * p) == a * (256 * p)
  {
  }

  lemma {:induction false} GetBound(s: seq<byte>)
    ensures Get(s) < Pow256(|s|)
  {
    if s != [] {
      GetBound(s[..|s| - 1]);
    }
  }
}
/** Counters that wrap: integers and their remainders. */
module Modular {
  lemma MulAtLeast(n: int, k: int)
    requires 0 < n && 1 <= k
    ensures k * n >= n
  {
  }

  lemma Distribute(n: int, a: int, b: int)
    ensures (a - b) * n == a * n - b * n
  {
  }

  lemma SameRemainder(n: int, q: int, r: int, q': int, r': int)
    requires 0 < n && 0 <= r < n && 0 <= r' < n
    requires q * n + r == q' * n + r'
    ensures r == r'
  {
    if q > q' {
      MulAtLeast(n, q - q');
      Distribute(n, q, q');
    }
    if q < q' {
      MulAtLeast(n, q' - q);
      Distribute(n, q', q);
    }
  }

  lemma DivUnique(x: int, n: int, q: int, r: int)
    requires 0 < n && 0 <= r < n && x == q * n + r
    ensures x / n == q
  {
    var q' := x / n;
    SameRemainder(n, q, r, q', x % n);
    if q > q' {
      MulAtLeast(n, q - q');
      Distribute(n, q, q');
    }
    if q < q' {
      MulAtLeast(n, q' - q);
      Distribute(n, q', q);
    }
  }

  /** `a - b` in an unsigned type of `range` values. */
  function Sub(range: nat, a: nat, b: nat): (r: nat)
    requires a < range && b < range
    ensures r < range
  {
    if a >= b then a - b else a - b + range
  }

  /** `a + b` in an unsigned type of `range` values. */
  function Plus(range: nat, a: nat, b: nat): (r: nat)
    requires a < range && b < range
    ensures r < range
  {
    if a + b < range then a + b else a + b - range
  }

  /** The value that the unbounded number `n` has in an unsigned type of `range` values. */
  function Wire(range: nat, n: int): (w: nat)
    requires 0 < range
    ensures w < range
  {
    n % range
  }

  /** The remainder of a number is known from the remainder of one at most a turn away. */
  lemma Shift(n: int, a: int, d: int)
    requires 0 < n && 0 <= d <= n
    ensures (a + d) % n == if a % n + d < n then a % n + d else a % n + d - n
  {
    var q, r := a / n, a % n;
    var q', r' := (a + d) / n, (a + d) % n;
    if r + d < n {
      SameRemainder(n, q, r + d, q', r');
    } else {
      Distribute(n, q + 1, q);
      SameRemainder(n, q + 1, r + d - n, q', r');
    }
  }

  lemma WireShift(range: nat, a: int, d: nat)
    requires d < range
    ensures Wire(range, a + d) == Plus(range, Wire(range, a), d)
  {
    Shift(range, a, d);
  }

  lemma WireAtMost(range: nat, a: nat)
    requires 0 < range
    ensures Wire(range, a) <= a
  {
    if a >= range {
      MulAtLeast(range, a / range);
    } else {
      Shift(range, 0, a);
    }
  }

  /** Differences of numbers less than the range apart survive the wire. */
  lemma WireSub(range: nat, a: int, b: int)
    requires 0 < range && -(range as int) < a - b < range
    ensures Sub(range, Wire(range, a), Wire(range, b)) == if a >= b then a - b else a - b + range
  {
    if a >= b {
      Shift(range, b, a - b);
    } else {
      Shift(range, a, b - a);
    }
  }
}

/** Indices taken round a ring of `n` places. */
module RingIndex {
  import opened Modular

  /** The place of `x` when places are counted on and on. */
  function Around(x: int, n: nat): (r: nat)
    requires 0 < n
    ensures r < n
  {
    x % n
  }

  lemma AroundShift(x: int, n: nat)
    requires 0 < n
    ensures Around(x + n, n) == Around(x, n)
  {
    Shift(n, x, n);
  }

  lemma AroundOnce(x: int, n: nat)
    requires 0 < n && -(n as int) <= x < 2 * n
    ensures Around(x, n) == if x < 0 then x + n else if x < n then x else x - n
  {
    var r := if x < 0 then x + n else if x < n then x else x - n;
    Shift(n, 0, r);
    Shift(n, r - n, n);
    Shift(n, r, n);
  }

  lemma AroundSuccessor(x: int, n: nat)
    requires 0 < n
    ensures Around(x + 1, n) == if Around(x, n) + 1 == n then 0 else Around(x, n) + 1
  {
    Shift(n, x, 1);
  }
}
