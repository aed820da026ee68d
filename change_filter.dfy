/** The change filter shared by the device reader (`read_content` looped by
    `read`) and by the configuration watcher (`wait_config_change`). Both
    keep a baseline; on every poll they obtain a reading that is either a
    value or an error. An error ends the loop with the baseline as it was. A
    reading equal to the baseline does nothing. A different reading first
    replaces the baseline and is then sent; a failed send ends the loop with
    the baseline already replaced. The messages that leave the loop are
    "every change", which `Destutter` states independently. */
module ChangeFilter {
  import opened Types

  /** What a run of the loop over some readings produced: the values sent,
      in order, the baseline at the end, and the error that ended the loop
      (None when the readings ran out with the loop still running). */
  datatype Run<T> = Run(sent: seq<T>, last: T, stop: Option<Error>)

  predicate AllOk<T>(rs: seq<Result<T>>)
  {
    forall i :: 0 <= i < |rs| ==> rs[i].Ok?
  }

  /** The values of readings that all succeeded. */
  function Values<T>(rs: seq<Result<T>>): (vs: seq<T>)
    requires AllOk(rs)
    ensures |vs| == |rs| && forall i :: 0 <= i < |rs| ==> vs[i] == rs[i].value
  {
    seq(|rs|, i requires 0 <= i < |rs| => rs[i].value)
  }

  /** The loop, starting from baseline `v`, over the readings `rs`, sending
      to a channel whose receiver is alive exactly when `open`. */
  function Track<T(==)>(v: T, rs: seq<Result<T>>, open: bool): (r: Run<T>)
    ensures |r.sent| <= |rs|
    ensures !open ==> r.sent == []
    decreases |rs|
  {
    if rs == [] then Run([], v, None)
    else match rs[0]
      case Err(e) => Run([], v, Some(e))
      case Ok(x) =>
        if x == v then Track(v, rs[1..], open)
        else if !open then Run([], x, Some(ChannelClosed))
        else
          var rest := Track(x, rs[1..], open);
          Run([x] + rest.sent, rest.last, rest.stop)
  }

  /** With a live receiver the loop runs to the end exactly when every
      reading succeeds; with a dead one, exactly when every reading equals
      the baseline, since the first change it meets fails to be sent. */
  lemma {:induction false} TrackRunsToEnd<T>(v: T, rs: seq<Result<T>>, open: bool)
    ensures open ==> (Track(v, rs, open).stop.None? <==> AllOk(rs))
    ensures !open ==> (Track(v, rs, open).stop.None? <==> forall i :: 0 <= i < |rs| ==> rs[i] == Ok(v))
    decreases |rs|
  {
    if rs != [] {
      assert forall i :: 1 <= i < |rs| ==> rs[i] == rs[1..][i - 1];
      match rs[0]
      case Err(e) =>
      case Ok(x) =>
        if x == v {
          TrackRunsToEnd(v, rs[1..], open);
        } else if open {
          TrackRunsToEnd(x, rs[1..], open);
        }
    }
  }

  /** One poll: an error stops with the baseline kept; an equal value does
      nothing; a different value replaces the baseline and is sent, or,
      when the receiver is gone, stops the loop with the baseline replaced. */
  lemma TrackOne<T>(v: T, r: Result<T>, open: bool)
    ensures Track(v, [r], open) ==
              if r.Err? then Run([], v, Some(r.error))
              else if r.value == v then Run([], v, None)
              else if open then Run([r.value], r.value, None)
              else Run([], r.value, Some(ChannelClosed))
  {
  }

  /** Running over `a + b` is running over `a`, then, unless that stopped,
      running over `b` from the baseline `a` left; once the loop has stopped
      nothing that follows is looked at (nothing is retried). */
  lemma {:induction false} TrackAppend<T>(v: T, a: seq<Result<T>>, b: seq<Result<T>>, open: bool)
    ensures var ra := Track(v, a, open);
            Track(v, a + b, open) ==
              if ra.stop.Some? then ra
              else var rb := Track(ra.last, b, open); Run(ra.sent + rb.sent, rb.last, rb.stop)
    decreases |a|
  {
    if a == [] {
      assert a + b == b;
    } else {
      assert (a + b)[0] == a[0];
      assert (a + b)[1..] == a[1..] + b;
      match a[0]
      case Err(e) =>
      case Ok(x) =>
        if x == v {
          TrackAppend(v, a[1..], b, open);
        } else if open {
          TrackAppend(x, a[1..], b, open);
          var ra := Track(x, a[1..], open);
          if ra.stop.None? {
            var rb := Track(ra.last, b, open);
            assert [x] + (ra.sent + rb.sent) == ([x] + ra.sent) + rb.sent;
          }
        }
    }
  }

  /** One more poll after the readings `rs[..i]`, when those did not stop
      the loop; if that poll stops it, the rest of `rs` is never looked at. */
  lemma TrackStep<T>(v: T, rs: seq<Result<T>>, i: nat, open: bool)
    requires i < |rs| && Track(v, rs[..i], open).stop.None?
    ensures var before := Track(v, rs[..i], open);
            var step := Track(before.last, [rs[i]], open);
            && Track(v, rs[..i + 1], open) == Run(before.sent + step.sent, step.last, step.stop)
            && (step.stop.Some? ==> Track(v, rs, open) == Track(v, rs[..i + 1], open))
  {
    TrackAppend(v, rs[..i], [rs[i]], open);
    assert rs[..i + 1] == rs[..i] + [rs[i]];
    TrackAppend(v, rs[..i + 1], rs[i + 1..], open);
    assert rs[..i + 1] + rs[i + 1..] == rs;
  }

  /** With a live receiver, the first failed reading ends the loop with
      that error; the values
      sent and the baseline are those of the readings before it; the
      readings after it are never looked at. */
  lemma TrackStopsAtFirstError<T>(v: T, rs: seq<Result<T>>, k: nat)
    requires k < |rs| && AllOk(rs[..k]) && rs[k].Err?
    ensures var before := Track(v, rs[..k], true);
            Track(v, rs, true) == Run(before.sent, before.last, Some(rs[k].error))
  {
    var before := Track(v, rs[..k], true);
    TrackRunsToEnd(v, rs[..k], true);
    TrackAppend(v, rs[..k], rs[k..], true);
    assert rs[..k] + rs[k..] == rs;
    assert rs[k..][0] == rs[k];
  }

  /** `s` with every element equal to the one before it removed, defined
      from the right end. */
  function Destutter<T(==)>(s: seq<T>): seq<T>
    decreases |s|
  {
    if |s| <= 1 then s
    else if s[|s| - 1] == s[|s| - 2] then Destutter(s[..|s| - 1])
    else Destutter(s[..|s| - 1]) + [s[|s| - 1]]
  }

  /** `Destutter` keeps the first and the last element of a non-empty
      sequence and produces no element twice in a row. */
  lemma {:induction false} DestutterShape<T>(s: seq<T>)
    requires s != []
    ensures var d := Destutter(s);
            && d != [] && d[0] == s[0] && d[|d| - 1] == s[|s| - 1]
            && forall i :: 0 <= i < |d| - 1 ==> d[i] != d[i + 1]
    decreases |s|
  {
    if |s| > 1 {
      DestutterShape(s[..|s| - 1]);
    }
  }

  /** A sequence with no element twice in a row is its own destuttering. */
  lemma {:induction false} DestutterNoRepeats<T>(s: seq<T>)
    requires forall i :: 0 <= i < |s| - 1 ==> s[i] != s[i + 1]
    ensures Destutter(s) == s
    decreases |s|
  {
    if |s| > 1 {
      DestutterNoRepeats(s[..|s| - 1]);
    }
  }

  /** The baseline followed by the values of some readings and one more. */
  lemma ValuesSnoc<T>(v: T, rs: seq<Result<T>>, x: Result<T>)
    requires AllOk(rs) && x.Ok?
    ensures AllOk(rs + [x]) && [v] + Values(rs + [x]) == ([v] + Values(rs)) + [x.value]
  {
    assert forall i :: 0 <= i < |rs| ==> (rs + [x])[i] == rs[i];
    assert Values(rs + [x]) == Values(rs) + [x.value];
  }

  /** One more element is dropped by `Destutter` exactly when it repeats
      the last one. */
  lemma DestutterSnoc<T>(s: seq<T>, x: T)
    requires s != []
    ensures Destutter(s + [x]) == if x == s[|s| - 1] then Destutter(s) else Destutter(s) + [x]
  {
    var t := s + [x];
    assert t[..|t| - 1] == s;
    assert t[|t| - 1] == x && t[|t| - 2] == s[|s| - 1];
  }

  /** Over readings that all succeed, with the receiver alive, the loop
      never stops, ends with the last reading as its baseline, and the
      initial baseline followed by what it sent is exactly the
      destuttering of the initial baseline followed by the readings:
      every reading that differs from the one before it, in order. */
  lemma {:induction false} TrackDestutters<T>(v: T, rs: seq<Result<T>>)
    requires AllOk(rs)
    ensures var r := Track(v, rs, true);
            var s := [v] + Values(rs);
            && r.stop.None?
            && r.last == s[|s| - 1]
            && [v] + r.sent == Destutter(s)
    decreases |rs|
  {
    if rs != [] {
      var init := rs[..|rs| - 1];
      var x := rs[|rs| - 1];
      assert init + [x] == rs;
      assert AllOk(init);
      TrackDestutters(v, init);
      TrackAppend(v, init, [x], true);
      var ri := Track(v, init, true);
      TrackOne(ri.last, x, true);
      ValuesSnoc(v, init, x);
      DestutterSnoc([v] + Values(init), x.value);
      if x.value != ri.last {
        assert [v] + (ri.sent + [x.value]) == ([v] + ri.sent) + [x.value];
      }
    }
  }
}
