/**
 * The LiveData extensions: a distinct-values view of a LiveData, conditional
 * set and post, and an observer that skips nulls. A Kotlin `T?` value is an
 * Option<T>, with None for null.
 */
module LiveDataExt {
  import opened Wrappers

  /**
   * A MutableLiveData as far as these extensions use it: its current value, the
   * number of setValue dispatches, and the values handed to postValue in order
   * (applied later on the main thread, which is not modelled).
   */
  class MutableLiveData<T> {
    var value: Option<T>
    var version: nat
    var posted: seq<Option<T>>

    constructor ()
      ensures value == None && version == 0 && posted == []
    {
      value := None;
      version := 0;
      posted := [];
    }

    /** setValue: replaces the value and dispatches it to the observers. */
    method SetValue(v: Option<T>)
      modifies this
      ensures value == v && version == old(version) + 1 && posted == old(posted)
    {
      value := v;
      version := version + 1;
    }

    /** postValue: queues the value for the main thread; the value is unchanged for now. */
    method PostValue(v: Option<T>)
      modifies this
      ensures posted == old(posted) + [v] && value == old(value) && version == old(version)
    {
      posted := posted + [v];
    }
  }

  // ----- getDistinct -----

  /**
   * The values getDistinct forwards for the inputs `xs`: the first one, and
   * then each input that differs from the one before it.
   */
  function Emissions<T(==)>(xs: seq<Option<T>>): seq<Option<T>>
    decreases |xs|
  {
    if |xs| <= 1 then xs
    else Emissions(xs[..|xs| - 1]) + (if xs[|xs| - 1] != xs[|xs| - 2] then [xs[|xs| - 1]] else [])
  }

  /**
   * The observer getDistinct registers on the observed LiveData: `initialized`
   * and `lastObj` as in getDistinct's anonymous Observer, `received` the inputs
   * so far, posting to `distinct`.
   */
  class DistinctObserver<T(==)> {
    var initialized: bool
    var lastObj: Option<T>
    const distinct: MutableLiveData<T>
    ghost var received: seq<Option<T>>

    ghost predicate Valid()
      reads this, distinct
    {
      && (initialized <==> received != [])
      && (received != [] ==> lastObj == received[|received| - 1])
      && distinct.posted == Emissions(received)
    }

    constructor (distinct: MutableLiveData<T>)
      requires distinct.posted == []
      ensures Valid() && this.distinct == distinct && received == []
      ensures !initialized && lastObj == None
    {
      initialized := false;
      lastObj := None;
      this.distinct := distinct;
      received := [];
    }

    /**
     * onChanged: the first value is always posted, null included; after that a
     * value is posted exactly when it differs from the last one.
     */
    method OnChanged(obj: Option<T>) returns (emitted: bool)
      requires Valid()
      modifies this, distinct
      ensures Valid() && received == old(received) + [obj]
      ensures emitted <==> !old(initialized) || obj != old(lastObj)
      ensures initialized && lastObj == obj
      ensures distinct.posted == old(distinct.posted) + (if emitted then [obj] else [])
      ensures distinct.value == old(distinct.value) && distinct.version == old(distinct.version)
    {
      ghost var xs := received + [obj];
      assert xs[..|xs| - 1] == received;
      if !initialized {
        initialized := true;
        lastObj := obj;
        distinct.PostValue(lastObj);
        emitted := true;
      } else if obj != lastObj {
        lastObj := obj;
        distinct.PostValue(lastObj);
        emitted := true;
      } else {
        emitted := false;
      }
      received := xs;
    }
  }

  /** getDistinct: a new MediatorLiveData fed by a fresh observer. */
  method GetDistinct<T(==)>() returns (observer: DistinctObserver<T>)
    ensures fresh(observer) && fresh(observer.distinct)
    ensures observer.Valid() && observer.received == [] && observer.distinct.value == None
  {
    var distinctLiveData := new MutableLiveData<T>();
    observer := new DistinctObserver(distinctLiveData);
  }

  // ----- what getDistinct forwards -----

  /** The first input is always forwarded, even when it is null. */
  lemma EmissionsStartWithFirst<T>(xs: seq<Option<T>>)
    requires xs != []
    ensures Emissions(xs) != [] && Emissions(xs)[0] == xs[0]
  {
    if |xs| > 1 {
      EmissionsStartWithFirst(xs[..|xs| - 1]);
    }
  }

  /** The last value forwarded is the last input (so `lastObj` is both). */
  lemma EmissionsEndWithLast<T>(xs: seq<Option<T>>)
    requires xs != []
    ensures Emissions(xs) != [] && Emissions(xs)[|Emissions(xs)| - 1] == xs[|xs| - 1]
  {
    if |xs| > 1 {
      var prefix := xs[..|xs| - 1];
      EmissionsEndWithLast(prefix);
    }
  }

  /** No two consecutive forwarded values are equal. */
  lemma {:induction false} EmissionsNoAdjacentRepeats<T>(xs: seq<Option<T>>)
    ensures forall i | 0 <= i < |Emissions(xs)| - 1 :: Emissions(xs)[i] != Emissions(xs)[i + 1]
    decreases |xs|
  {
    if |xs| > 1 {
      var prefix := xs[..|xs| - 1];
      EmissionsNoAdjacentRepeats(prefix);
      EmissionsEndWithLast(prefix);
    }
  }

  /**
   * The positions of the inputs that are forwarded: strictly increasing, so the
   * forwarded values are a subsequence of the inputs.
   */
  function EmissionPositions<T(==)>(xs: seq<Option<T>>): (r: seq<nat>)
    ensures |r| == |Emissions(xs)|
    ensures forall j | 0 <= j < |r| :: r[j] < |xs| && xs[r[j]] == Emissions(xs)[j]
    ensures forall j, k | 0 <= j < k < |r| :: r[j] < r[k]
    decreases |xs|
  {
    if |xs| <= 1 then (if xs == [] then [] else [0])
    else
      var prefix := xs[..|xs| - 1];
      EmissionPositions(prefix) + (if xs[|xs| - 1] != xs[|xs| - 2] then [|xs| - 1] else [])
  }

  /** A run of a repeated input is forwarded once. */
  lemma {:induction false} RunForwardedOnce<T>(xs: seq<Option<T>>, x: Option<T>, n: nat)
    requires n >= 1
    ensures Emissions(xs + seq(n, _ => x)) == Emissions(xs + [x])
    decreases n
  {
    if n > 1 {
      var longer := xs + seq(n, _ => x);
      assert longer[..|longer| - 1] == xs + seq(n - 1, _ => x);
      assert longer[|longer| - 1] == longer[|longer| - 2] == x;
      RunForwardedOnce(xs, x, n - 1);
    } else {
      assert seq(1, _ => x) == [x];
    }
  }

  /** Forwarding the forwarded values again changes nothing. */
  lemma {:induction false} EmissionsIdempotent<T>(xs: seq<Option<T>>)
    ensures Emissions(Emissions(xs)) == Emissions(xs)
    decreases |xs|
  {
    if |xs| > 1 {
      var prefix := xs[..|xs| - 1];
      var e := Emissions(prefix);
      EmissionsIdempotent(prefix);
      EmissionsStartWithFirst(prefix);
      EmissionsEndWithLast(prefix);
      if xs[|xs| - 1] != xs[|xs| - 2] {
        var e2 := e + [xs[|xs| - 1]];
        assert e2[..|e2| - 1] == e;
        assert e2[|e2| - 2] == xs[|xs| - 2];
        assert Emissions(xs) == e2;
        assert Emissions(e2) == Emissions(e) + [xs[|xs| - 1]];
      } else {
        assert Emissions(xs) == e;
      }
    }
  }

  // ----- updateIfChanged, postIfChanged -----

  /** updateIfChanged: the value ends up `newValue`; setValue runs only if it differed. */
  method UpdateIfChanged<T(==)>(data: MutableLiveData<T>, newValue: Option<T>)
    modifies data
    ensures data.value == newValue
    ensures data.version == old(data.version) + (if old(data.value) != newValue then 1 else 0)
    ensures data.posted == old(data.posted)
  {
    if data.value != newValue {
      data.SetValue(newValue);
    }
  }

  /** postIfChanged: posts only when the current value differs; the value itself is untouched. */
  method PostIfChanged<T(==)>(data: MutableLiveData<T>, newValue: Option<T>)
    modifies data
    ensures data.posted == old(data.posted) + (if old(data.value) != newValue then [newValue] else [])
    ensures data.value == old(data.value) && data.version == old(data.version)
  {
    if data.value != newValue {
      data.PostValue(newValue);
    }
  }

  // ----- observeNonNull -----

  /**
   * The values observeNonNull hands to its callback for the delivered values
   * `xs`: exactly the non-null ones, each unchanged, one call per non-null
   * delivery.
   */
  function NonNulls<T>(xs: seq<Option<T>>): (r: seq<T>)
    ensures forall i | 0 <= i < |xs| && xs[i].Some? :: xs[i].value in r
    ensures forall j | 0 <= j < |r| :: Some(r[j]) in xs
    ensures |r| == |xs| - CountNulls(xs)
  {
    if xs == [] then []
    else
      var rest := NonNulls(xs[1..]);
      assert forall i | 1 <= i < |xs| :: xs[1..][i - 1] == xs[i];
      assert forall j | 0 <= j < |rest| :: Some(rest[j]) in xs;
      (if xs[0].Some? then [xs[0].value] else []) + rest
  }

  /** Delivering `a` then `b` calls back for `a`'s non-null values, then `b`'s. */
  lemma {:induction false} NonNullsAppend<T>(a: seq<Option<T>>, b: seq<Option<T>>)
    ensures NonNulls(a + b) == NonNulls(a) + NonNulls(b)
    decreases |a|
  {
    if a == [] {
      assert a + b == b;
    } else {
      var head := if a[0].Some? then [a[0].value] else [];
      var ab := a + b;
      assert ab[0] == a[0] && ab[1..] == a[1..] + b;
      var tail := NonNulls(a[1..] + b);
      assert NonNulls(ab) == head + tail;
      NonNullsAppend(a[1..], b);
      assert head + tail == (head + NonNulls(a[1..])) + NonNulls(b);
    }
  }

  /** The number of null deliveries: none exactly when every delivery carries a value. */
  function CountNulls<T>(xs: seq<Option<T>>): (n: nat)
    ensures n <= |xs|
    ensures n == 0 <==> forall i | 0 <= i < |xs| :: xs[i].Some?
  {
    if xs == [] then 0
    else
      assert forall i | 1 <= i < |xs| :: xs[1..][i - 1] == xs[i];
      (if xs[0].None? then 1 else 0) + CountNulls(xs[1..])
  }
}
