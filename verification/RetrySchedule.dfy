/** The in-memory retry queue: names by due time, and the due time of each name. */
module RetrySchedule {
  import opened Prelude

  type Name = string

  type Instant = nat

  /** Each name is in the bucket of its due time and in no other, and there is no empty bucket. */
  ghost predicate Inverse(schedule: map<Instant, set<Name>>, index: map<Name, Instant>) {
    && (forall t, n :: t in schedule && n in schedule[t] ==> n in index && index[n] == t)
    && (forall n :: n in index ==> index[n] in schedule && n in schedule[index[n]])
    && (forall t :: t in schedule ==> schedule[t] != {})
  }

  /** The names due by `now`, each once, in due order. */
  ghost predicate DueInOrder(due: seq<Name>, index: map<Name, Instant>, now: Instant) {
    && NoRepeat(due)
    && (forall n :: n in due <==> n in index && index[n] <= now)
    && (forall i, j :: 0 <= i < j < |due| ==> index[due[i]] <= index[due[j]])
  }

  lemma Member(s: set<Instant>) returns (x: Instant)
    requires s != {}
    ensures x in s
  {
    x :| x in s;
  }

  lemma {:induction false} Least(s: set<Instant>) returns (t: Instant)
    requires s != {}
    ensures t in s && forall u :: u in s ==> t <= u
    decreases |s|
  {
    var x := Member(s);
    var rest := s - {x};
    assert forall u :: u in s ==> u == x || u in rest;
    t := x;
    if rest != {} {
      var least := Least(rest);
      if least < x { t := least; }
    }
  }

  class Queue {
    var schedule: map<Instant, set<Name>>
    var index: map<Name, Instant>

    ghost predicate Valid()
      reads this
    {
      Inverse(schedule, index)
    }

    constructor ()
      ensures Valid() && index == map[]
    {
      schedule, index := map[], map[];
    }

    /** A name scheduled before is moved. */
    method Schedule(name: Name, when: Instant)
      requires Valid()
      modifies this
      ensures Valid() && index == old(index)[name := when]
    {
      Remove(name);
      ghost var s, x := schedule, index;
      var bucket := (if when in schedule then schedule[when] else {}) + {name};
      schedule, index := schedule[when := bucket], index[name := when];
      AddKeepsInverse(s, x, name, when, bucket, schedule, index);
    }

    method Remove(name: Name)
      requires Valid()
      modifies this
      ensures Valid() && index == old(index) - {name}
    {
      if name in index {
        var prev := index[name];
        index := index - {name};
        if prev in schedule {
          var bucket := schedule[prev] - {name};
          schedule := schedule[prev := bucket];
          if bucket == {} { schedule := schedule - {prev}; }
        }
      }
    }

    method First() returns (r: Option<Instant>)
      requires Valid()
      ensures r.None? <==> |schedule.Keys| == 0
      ensures r.Some? ==> r.value in schedule && forall t :: t in schedule ==> r.value <= t
    {
      var times := schedule.Keys;
      if |times| == 0 { return None; }
      ghost var least := Least(times);
      var t :| t in times && forall u :: u in times ==> t <= u;
      r := Some(t);
    }

    /** Take out every name due by now. */
    method DrainDue(now: Instant) returns (due: seq<Name>)
      requires Valid()
      modifies this
      ensures Valid()
      ensures DueInOrder(due, old(index), now)
      ensures index == old(index) - Elements(due)
    {
      due := [];
      ghost var was := index;
      while true
        invariant Valid() && Drained(due, was, index, schedule.Keys, now)
        decreases |schedule|
      {
        var first := First();
        if first.None? || first.value > now { break; }
        var when := first.value;
        var bucket := schedule[when];
        var names := ListSet(bucket);
        ghost var s, x := schedule, index;
        schedule, index := schedule - {when}, index - bucket;
        TakeKeepsInverse(s, x, when, schedule, index);
        TakeDrains(due, was, x, names, when, index, s.Keys, schedule.Keys, now);
        due := due + names;
      }
      AllDue(due, was, schedule, index, now);
    }
  }

  lemma AddKeepsInverse(s: map<Instant, set<Name>>, x: map<Name, Instant>, name: Name, when: Instant, bucket: set<Name>,
                        s': map<Instant, set<Name>>, x': map<Name, Instant>)
    requires Inverse(s, x) && name !in x && s' == s[when := bucket] && x' == x[name := when]
    requires name in bucket && forall n :: n in bucket && n != name <==> when in s && n in s[when]
    ensures Inverse(s', x')
  {
    forall t, n | t in s' && n in s'[t] ensures n in x' && x'[n] == t {
      if t != when { assert n in s[t]; }
    }
    forall n | n in x' ensures x'[n] in s' && n in s'[x'[n]] {
      if n != name { assert n in s[x[n]]; }
    }
  }

  lemma TakeKeepsInverse(s: map<Instant, set<Name>>, x: map<Name, Instant>, when: Instant,
                         s': map<Instant, set<Name>>, x': map<Name, Instant>)
    requires Inverse(s, x) && when in s && s' == s - {when} && x' == x - s[when]
    ensures Inverse(s', x')
  {
    forall t, n | t in s' && n in s'[t] ensures n in x' && x'[n] == t {
      assert n in s[t] && x[n] == t;
      assert n !in s[when];
    }
    forall n | n in x' ensures x'[n] in s' && n in s'[x'[n]] {
      assert n in s[x[n]];
    }
  }

  /** What is taken and what is left is what was there; the taken is in due order and due before what is left. */
  ghost predicate Drained(due: seq<Name>, was: map<Name, Instant>, index: map<Name, Instant>, times: set<Instant>, now: Instant) {
    && NoRepeat(due)
    && (forall n :: n in due ==> n in was && n !in index && was[n] <= now)
    && (forall n :: n in was <==> n in due || n in index)
    && (forall n :: n in index ==> n in was && index[n] == was[n])
    && (forall i, j :: 0 <= i < j < |due| ==> was[due[i]] <= was[due[j]])
    && (forall n, t :: n in due && t in times ==> was[n] < t)
  }

  lemma TakeDrains(due: seq<Name>, was: map<Name, Instant>, x: map<Name, Instant>, names: seq<Name>, when: Instant,
                   x': map<Name, Instant>, times: set<Instant>, times': set<Instant>, now: Instant)
    requires Drained(due, was, x, times, now) && NoRepeat(names) && when <= now
    requires forall n :: n in names <==> n in x && x[n] == when
    requires forall n :: n in x' <==> n in x && n !in names
    requires forall n :: n in x' ==> x'[n] == x[n]
    requires when in times && times' == times - {when} && forall t :: t in times' ==> when < t
    ensures Drained(due + names, was, x', times', now)
  {
    var both := due + names;
    forall i, j | 0 <= i < j < |both| ensures both[i] != both[j] && was[both[i]] <= was[both[j]] {
      if i < |due| {
        assert due[i] in due;
        if j >= |due| { assert names[j - |due|] in names; }
      } else {
        assert names[i - |due|] in names && names[j - |due|] in names;
      }
    }
  }

  lemma AllDue(due: seq<Name>, was: map<Name, Instant>, schedule: map<Instant, set<Name>>, index: map<Name, Instant>, now: Instant)
    requires Inverse(schedule, index) && Drained(due, was, index, schedule.Keys, now)
    requires forall t :: t in schedule ==> now < t
    ensures DueInOrder(due, was, now) && index == was - Elements(due)
  {}
}
