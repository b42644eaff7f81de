/** The helpers of the utility file that the obfuscator and its callers rely on:
    the random source, `clamp`, the object pool and the frame-rate monitor. */
module Utils {
  import opened Text

  // ---------------------------------------------------------------------------
  // Random

  /** The value a draw selects in [lo, hi]: `Math.floor(Math.random() * (hi - lo + 1)) + lo`
      where the draw stands for `Math.floor(Math.random() * (hi - lo + 1))` before reduction. */
  function Pick(d: nat, lo: int, hi: int): (r: int)
    requires lo <= hi
    ensures lo <= r <= hi
  {
    lo + d % (hi - lo + 1)
  }

  /** Every value of the range is the outcome of some draw, so a property proved for all
      draws is proved for every outcome `Random.int` can produce. */
  lemma PickReachesEveryValue(lo: int, hi: int, v: int)
    requires lo <= v <= hi
    ensures Pick(v - lo, lo, hi) == v
  {
  }

  /** The global `Random` helper, injected: an arbitrary stream of draws and a cursor. */
  class RandomSource {
    const draws: nat -> nat
    var used: nat

    constructor (draws: nat -> nat)
      ensures this.draws == draws && used == 0
    {
      this.draws := draws;
      used := 0;
    }

    /** `Random.int(min, max)`: an integer in [min, max], inclusive at both ends. */
    method Int(lo: int, hi: int) returns (r: int)
      requires lo <= hi
      modifies this
      ensures lo <= r <= hi
      ensures r == Pick(draws(old(used)), lo, hi)
      ensures used == old(used) + 1
    {
      r := Pick(draws(used), lo, hi);
      used := used + 1;
    }

    /** `Random.choice(array)`: an element of a non-empty array. */
    method Choice<T>(xs: seq<T>) returns (x: T)
      requires |xs| > 0
      modifies this
      ensures x in xs
      ensures x == xs[Pick(draws(old(used)), 0, |xs| - 1)]
      ensures used == old(used) + 1
    {
      x := xs[Pick(draws(used), 0, |xs| - 1)];
      used := used + 1;
    }

    /** `Random.boolean()`: either value, depending on the draw. */
    method Boolean() returns (b: bool)
      modifies this
      ensures b == (draws(old(used)) % 2 == 1)
      ensures used == old(used) + 1
    {
      b := draws(used) % 2 == 1;
      used := used + 1;
    }
  }

  // ---------------------------------------------------------------------------
  // clamp

  /** `clamp(value, min, max)`, i.e. `Math.min(Math.max(value, min), max)`. */
  function Clamp(v: real, lo: real, hi: real): (r: real)
    ensures lo <= hi ==> lo <= r <= hi
    ensures lo <= v <= hi ==> r == v
    ensures v < lo <= hi ==> r == lo
    ensures lo <= hi < v ==> r == hi
    ensures hi < lo ==> r == hi
  {
    var m := if v > lo then v else lo;
    if m < hi then m else hi
  }

  // ---------------------------------------------------------------------------
  // ObjectPool

  function Reversed<T>(s: seq<T>): (r: seq<T>)
    ensures |r| == |s|
  {
    if s == [] then [] else Reversed(s[1..]) + [s[0]]
  }

  lemma {:induction false} ReversedSnoc<T>(s: seq<T>, x: T)
    ensures Reversed(s + [x]) == [x] + Reversed(s)
  {
    if s != [] {
      assert (s + [x])[1..] == s[1..] + [x];
      ReversedSnoc(s[1..], x);
    } else {
      assert (s + [x])[1..] == [];
    }
  }

  /** A pool of reusable objects. The pool calls `createFn` for the objects it makes; the
      k-th object it makes is `createFn(k)`, so any creation behaviour is covered. */
  class ObjectPool<T(==)> {
    const createFn: nat -> T
    var created: nat
    var pool: seq<T>
    var active: seq<T>

    /** Pre-populates the pool with `initialSize` new objects; nothing is active. */
    constructor (createFn: nat -> T, initialSize: int := 10)
      ensures this.createFn == createFn
      ensures |pool| == (if initialSize < 0 then 0 else initialSize)
      ensures created == |pool|
      ensures forall k :: 0 <= k < |pool| ==> pool[k] == createFn(k)
      ensures active == []
    {
      this.createFn := createFn;
      pool := [];
      active := [];
      created := 0;
      new;
      var i := 0;
      while i < initialSize
        invariant 0 <= created == |pool|
        invariant i <= (if initialSize < 0 then 0 else initialSize)
        invariant i == created && active == []
        invariant forall k :: 0 <= k < |pool| ==> pool[k] == createFn(k)
      {
        pool := pool + [createFn(created)];
        created := created + 1;
        i := i + 1;
      }
    }

    /** Takes the most recently pooled object, or makes one when the pool is empty, and
        marks it active. The pool and active lists together grow by one exactly when a new
        object had to be made. */
    method Get() returns (obj: T)
      modifies this
      ensures old(pool) != [] ==>
                obj == old(pool)[|old(pool)| - 1] && pool == old(pool)[..|old(pool)| - 1] && created == old(created)
      ensures old(pool) == [] ==> obj == createFn(old(created)) && pool == [] && created == old(created) + 1
      ensures active == old(active) + [obj]
      ensures |pool| + |active| == |old(pool)| + |old(active)| + (if old(pool) == [] then 1 else 0)
    {
      if |pool| > 0 {
        obj := pool[|pool| - 1];
        pool := pool[..|pool| - 1];
      } else {
        obj := createFn(created);
        created := created + 1;
      }
      active := active + [obj];
    }

    /** Moves the first active occurrence of `obj` back to the pool; an object that is not
        active leaves both lists as they are. No object is made or lost. */
    method Release(obj: T)
      modifies this
      ensures obj in old(active) ==>
                var i := IndexOf(old(active), obj);
                active == old(active)[..i] + old(active)[i + 1..] && pool == old(pool) + [obj]
      ensures obj !in old(active) ==> active == old(active) && pool == old(pool)
      ensures multiset(pool) + multiset(active) == old(multiset(pool) + multiset(active))
      ensures |pool| + |active| == |old(pool)| + |old(active)|
      ensures created == old(created)
    {
      if obj in active {
        var i := IndexOf(active, obj);
        assert active == active[..i] + [obj] + active[i + 1..];
        active := active[..i] + active[i + 1..];
        pool := pool + [obj];
      }
    }

    /** Pops every active object onto the pool: the pool receives them last-first. */
    method ReleaseAll()
      modifies this
      ensures active == []
      ensures pool == old(pool) + Reversed(old(active))
      ensures |pool| + |active| == |old(pool)| + |old(active)|
      ensures created == old(created)
    {
      while |active| > 0
        invariant pool + Reversed(active) == old(pool) + Reversed(old(active))
        invariant created == old(created)
      {
        var obj := active[|active| - 1];
        ReversedSnoc(active[..|active| - 1], obj);
        assert active == active[..|active| - 1] + [obj];
        active := active[..|active| - 1];
        pool := pool + [obj];
      }
      assert Reversed<T>([]) == [];
    }
  }

  // ---------------------------------------------------------------------------
  // PerformanceMonitor

  /** `Math.round(a / b)` for b > 0: the integer nearest a / b, halves rounded up
      (`Math.floor(a / b + 0.5)`). */
  function RoundDiv(a: int, b: int): (r: int)
    requires b > 0
    ensures 2 * b * r <= 2 * a + b < 2 * b * (r + 1)
  {
    var r := (2 * a + b) / (2 * b);
    assert 2 * a + b == 2 * b * r + (2 * a + b) % (2 * b);
    r
  }

  function Sum(xs: seq<int>): int
  {
    if xs == [] then 0 else Sum(xs[..|xs| - 1]) + xs[|xs| - 1]
  }

  function Min(xs: seq<int>): (m: int)
    requires xs != []
    ensures m in xs && forall i :: 0 <= i < |xs| ==> m <= xs[i]
  {
    if |xs| == 1 then xs[0]
    else
      var m := Min(xs[..|xs| - 1]);
      assert forall i :: 0 <= i < |xs| - 1 ==> xs[i] == xs[..|xs| - 1][i];
      if xs[|xs| - 1] < m then xs[|xs| - 1] else m
  }

  function Max(xs: seq<int>): (m: int)
    requires xs != []
    ensures m in xs && forall i :: 0 <= i < |xs| ==> xs[i] <= m
  {
    if |xs| == 1 then xs[0]
    else
      var m := Max(xs[..|xs| - 1]);
      assert forall i :: 0 <= i < |xs| - 1 ==> xs[i] == xs[..|xs| - 1][i];
      if xs[|xs| - 1] > m then xs[|xs| - 1] else m
  }

  lemma {:induction false} SumBounds(xs: seq<int>, lo: int, hi: int)
    requires forall i :: 0 <= i < |xs| ==> lo <= xs[i] <= hi
    ensures |xs| * lo <= Sum(xs) <= |xs| * hi
  {
    if xs != [] {
      SumBounds(xs[..|xs| - 1], lo, hi);
      assert (|xs| - 1) * lo + lo == |xs| * lo;
      assert (|xs| - 1) * hi + hi == |xs| * hi;
    }
  }

  lemma RoundDivBetween(a: int, n: int, lo: int, hi: int)
    requires n > 0 && n * lo <= a <= n * hi
    ensures lo <= RoundDiv(a, n) <= hi
  {
    var r := RoundDiv(a, n);
    assert 2 * n * r <= 2 * a + n < 2 * n * (r + 1);
    assert 2 * n * r < 2 * n * (hi + 1) by {
      assert 2 * a + n <= 2 * (n * hi) + n;
      assert 2 * (n * hi) + n < 2 * n * (hi + 1);
    }
    assert 2 * n * lo < 2 * n * (r + 1) by {
      assert 2 * (n * lo) <= 2 * a;
    }
    MulMonotoneBack(2 * n, r, hi + 1);
    MulMonotoneBack(2 * n, lo, r + 1);
  }

  lemma MulMonotoneBack(k: int, x: int, y: int)
    requires k > 0 && k * x < k * y
    ensures x < y
  {
  }

  function Bounded(history: seq<int>, limit: nat): (h: seq<int>)
    ensures |history| <= limit + 1 ==> |h| <= limit
  {
    if |history| > limit then history[1..] else history
  }

  /** Frames per second, sampled once at least a second has passed. Times are whole
      milliseconds passed in by the caller. */
  class PerformanceMonitor {
    var fps: int
    var frameCount: nat
    var lastTime: int
    var fpsHistory: seq<int>
    const maxHistoryLength: nat

    ghost predicate Valid()
      reads this
    {
      maxHistoryLength == 60 && |fpsHistory| <= maxHistoryLength
    }

    constructor (now: int)
      ensures Valid()
      ensures fps == 60 && frameCount == 0 && lastTime == now && fpsHistory == []
    {
      fps := 60;
      frameCount := 0;
      lastTime := now;
      fpsHistory := [];
      maxHistoryLength := 60;
    }

    /** Counts a frame; once a second or more has passed since the last sample, records the
        rounded frame rate, keeping at most 60 samples, and restarts the count. */
    method Update(currentTime: int)
      requires Valid()
      modifies this
      ensures Valid()
      ensures frameCount >= 1
      ensures currentTime - old(lastTime) >= 1000 ==>
                && fps == RoundDiv(old(frameCount) * 1000, currentTime - old(lastTime))
                && fps >= 0
                && fpsHistory == Bounded(old(fpsHistory) + [fps], 60)
                && frameCount == 1 && lastTime == currentTime
      ensures currentTime - old(lastTime) < 1000 ==>
                && fps == old(fps) && fpsHistory == old(fpsHistory)
                && frameCount == old(frameCount) + 1 && lastTime == old(lastTime)
    {
      var delta := currentTime - lastTime;
      if delta >= 1000 {
        fps := RoundDiv(frameCount * 1000, delta);
        fpsHistory := fpsHistory + [fps];
        if |fpsHistory| > maxHistoryLength {
          fpsHistory := fpsHistory[1..];
        }
        frameCount := 0;
        lastTime := currentTime;
      }
      frameCount := frameCount + 1;
    }

    /** The rounded mean of the recorded samples, 60 before any sample; it always lies between
        the smallest and the largest sample. */
    function AverageFps(): (r: int)
      reads this
      ensures fpsHistory == [] ==> r == 60
      ensures fpsHistory != [] ==> Min(fpsHistory) <= r <= Max(fpsHistory)
    {
      if |fpsHistory| == 0 then 60
      else
        SumBounds(fpsHistory, Min(fpsHistory), Max(fpsHistory));
        RoundDivBetween(Sum(fpsHistory), |fpsHistory|, Min(fpsHistory), Max(fpsHistory));
        RoundDiv(Sum(fpsHistory), |fpsHistory|)
    }
  }
}
