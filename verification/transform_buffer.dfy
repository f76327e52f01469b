/** The transform buffer itself: a sorted deque kept by binary search and pruned from the front. */
module TransformBuffers {
  import opened Common
  import opened Samples

  class TransformBuffer<T(!new)> {
    var duration: int
    var samples: seq<Sample<T>>

    ghost predicate Valid()
      reads this
    {
      Sorted(samples)
    }

    constructor (duration: int)
      ensures Valid() && samples == [] && this.duration == duration
    {
      this.duration := duration;
      samples := [];
    }

    /** std::lower_bound: the first position whose stamp is not before time. */
    method LowerBound(time: int) returns (first: nat)
      requires Valid()
      ensures first <= |samples|
      ensures forall i :: 0 <= i < first ==> samples[i].stamp < time
      ensures forall i :: first <= i < |samples| ==> time <= samples[i].stamp
    {
      first := 0;
      var length := |samples|;
      while length > 0
        invariant 0 <= first <= first + length <= |samples|
        invariant forall i :: 0 <= i < first ==> samples[i].stamp < time
        invariant forall i :: first + length <= i < |samples| ==> time <= samples[i].stamp
      {
        var half := length / 2;
        var middle := first + half;
        if samples[middle].stamp < time {
          first := middle + 1;
          length := length - half - 1;
        } else {
          length := half;
        }
      }
    }

    method Insert(time: int, value: T)
      requires Valid()
      modifies this
      ensures Valid() && duration == old(duration)
      ensures samples == Samples.Insert(old(samples), time, value, duration)
    {
      hide Put, Prune, Sorted;
      PutSorted(samples, time, value);
      var position := LowerBound(time);
      PutAt(samples, time, value, position);
      if position < |samples| && samples[position].stamp == time {
        samples := samples[position := Sample(time, value)];
      } else {
        samples := samples[..position] + [Sample(time, value)] + samples[position..];
      }
      if duration > 0 {
        PopOlderThan(samples[|samples| - 1].stamp - duration);
      }
    }

    /** The pruning loop of insert. */
    method PopOlderThan(oldest: int)
      requires Valid()
      modifies this
      ensures Valid() && duration == old(duration)
      ensures samples == Prune(old(samples), oldest)
    {
      while samples != [] && samples[0].stamp < oldest
        invariant Valid() && duration == old(duration)
        invariant Prune(samples, oldest) == Prune(old(samples), oldest)
        decreases |samples|
      {
        samples := samples[1..];
      }
    }

    method Get(time: int, blend: (T, T, real) -> T) returns (r: Option<T>)
      requires Valid()
      ensures r == Lookup(samples, time, blend)
    {
      if samples == [] {
        return None;
      }
      var last := |samples| - 1;
      if time == 0 {
        return Some(samples[last].value);
      }
      ScanMeaning(samples, time, blend, last);
      if time <= samples[0].stamp {
        return Some(samples[0].value);
      }
      if time >= samples[last].stamp {
        return Some(samples[last].value);
      }
      var upper := LowerBound(time);
      ScanMeaning(samples, time, blend, upper);
      if samples[upper].stamp == time {
        return Some(samples[upper].value);
      }
      // The program also returns early for a bracket that is the first sample or empty; neither can happen.
      if upper == 0 {
        assert false;
      }
      var lower := upper - 1;
      var total := samples[upper].stamp - samples[lower].stamp;
      if total <= 0 {
        assert false;
      }
      ScanMeaning(samples, time, blend, lower);
      var ratio := Clamp((time - samples[lower].stamp) as real / total as real);
      r := Some(blend(samples[lower].value, samples[upper].value, ratio));
    }

    /** A new duration does not prune by itself; the next insert does. */
    method SetDuration(duration: int)
      requires Valid()
      modifies this
      ensures Valid() && this.duration == duration && samples == old(samples)
    {
      this.duration := duration;
    }
  }

  function Clamp(ratio: real): real {
    if ratio < 0.0 then 0.0 else if ratio > 1.0 then 1.0 else ratio
  }

  /** Any position that splits the stamps at time is where the linear scan puts the sample. */
  lemma {:induction false} PutAt<T>(s: seq<Sample<T>>, time: int, value: T, position: nat)
    requires Sorted(s) && position <= |s|
    requires forall i :: 0 <= i < position ==> s[i].stamp < time
    requires forall i :: position <= i < |s| ==> time <= s[i].stamp
    ensures Put(s, time, value) ==
            if position < |s| && s[position].stamp == time then s[position := Sample(time, value)]
            else s[..position] + [Sample(time, value)] + s[position..]
  {
    if position > 0 {
      PutAt(s[1..], time, value, position - 1);
    }
  }
}
