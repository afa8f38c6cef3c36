/** How far each kind of channel moves in one step of the plant, with the arithmetic written out. */
module PlantLaws {
  import opened Plant

  /** `n` is the number `v`, cut towards zero. */
  predicate Cut(n: int, v: real) {
    if v >= 0.0 then n >= 0 && n as real <= v < n as real + 1.0 else n <= 0 && n as real - 1.0 < v <= n as real
  }

  lemma CutIs(v: real)
    ensures Cut(Trunc(v), v)
  {
    if v >= 0.0 {
      assert v.Floor as real <= v < v.Floor as real + 1.0;
    } else {
      assert (-v).Floor as real <= -v < (-v).Floor as real + 1.0;
    }
  }

  /** A value outside the range gives the nearer limit, one inside is cut; a whole one stays. */
  predicate Settled(ch: Channel, v: real, n: int) {
    if v < ch.min as real then n == ch.min else if v > ch.max as real then n == ch.max else Cut(n, v)
  }

  lemma ClampLaw(ch: Channel, v: real)
    requires ch.min <= ch.max
    ensures Settled(ch, v, Clamp(ch, v)) && ch.min <= Clamp(ch, v) <= ch.max
  {
    WholeCut(ch.min);
    WholeCut(ch.max);
    CutIs(v);
    ClampRaw(ch, v);
  }

  lemma WholeCut(n: int)
    ensures Trunc(n as real) == n
  {
  }

  /** The value a channel of a validated table drives: its state. */
  lemma DrivenBy(cs: seq<Channel>, ch: Channel, d: Channel)
    requires Validated(cs) && d in cs && ch.drive == d.id
    ensures DriveTarget(cs, ch) == d.state
  {
    hide Trunc, Clamp;
    FindUnique(cs, d);
    var i :| 0 <= i < |cs| && cs[i] == d;
    assert RowOk(cs[i]) && RawState(cs[i]);
    WholeState(d);
  }

  lemma WholeState(d: Channel)
    requires RawState(d) && d.min <= d.max
    ensures Clamp(d, d.state) as real == d.state
  {
    WholeCut(d.state.Floor);
    ClampRaw(d, d.state);
  }

  lemma Stepped(cs: seq<Channel>, i: nat)
    requires Validated(cs) && i < |cs|
    ensures StepAll(cs)[i] == Next(cs, cs[i]) && RowOk(cs[i]) && RawState(cs[i])
  {
  }

  /** An output and a constant input stand still. */
  lemma StillLaw(cs: seq<Channel>, i: nat)
    requires Validated(cs) && i < |cs| && (cs[i].output || cs[i].kind == Const)
    ensures StepAll(cs)[i] == cs[i]
  {
    hide Clamp, DriveTarget;
    Stepped(cs, i);
    WholeState(cs[i]);
  }

  /** A ramp moves by its gain until it meets a limit. */
  lemma RampLaw(cs: seq<Channel>, i: nat) returns (n: int)
    requires Validated(cs) && i < |cs| && !cs[i].output && cs[i].kind == Ramp
    ensures StepAll(cs)[i] == cs[i].(state := n as real)
    ensures Settled(cs[i], cs[i].state + cs[i].gain, n)
    ensures cs[i].gain == cs[i].gain.Floor as real && cs[i].min as real <= cs[i].state + cs[i].gain <= cs[i].max as real ==>
              n as real == cs[i].state + cs[i].gain
  {
    hide Clamp, DriveTarget, Cut;
    Stepped(cs, i);
    n := Clamp(cs[i], cs[i].state + cs[i].gain);
    ClampLaw(cs[i], cs[i].state + cs[i].gain);
    WholeSum(cs[i].state, cs[i].gain, n);
  }

  lemma WholeOnly(n: int, k: int)
    ensures Cut(n, k as real) ==> n == k
  {
  }

  lemma WholeSum(x: real, y: real, n: int)
    requires x == x.Floor as real
    ensures y == y.Floor as real && Cut(n, x + y) ==> n as real == x + y
  {
    if y == y.Floor as real {
      hide Cut;
      var k := x.Floor + y.Floor;
      assert x + y == k as real;
      WholeOnly(n, k);
    }
  }

  /** A lag moves its gain's part of the way to its target: the state of the output that drives it, or
      0, plus the offset. */
  lemma LagLaw(cs: seq<Channel>, i: nat, target: real) returns (n: int)
    requires Validated(cs) && i < |cs| && !cs[i].output && cs[i].kind == Lag
    requires if cs[i].drive == NO_DRIVE then target == 0.0 else exists d :: d in cs && d.id == cs[i].drive && d.state == target
    ensures StepAll(cs)[i] == cs[i].(state := n as real)
    ensures Settled(cs[i], cs[i].state + cs[i].gain * (target + cs[i].offset - cs[i].state), n)
  {
    hide Clamp, Cut, DriveTarget, Next;
    Stepped(cs, i);
    Target(cs, cs[i], target);
    var v := cs[i].state + cs[i].gain * (target + cs[i].offset - cs[i].state);
    LagIs(cs, cs[i], v);
    n := Clamp(cs[i], v);
    ClampLaw(cs[i], v);
  }

  lemma LagIs(cs: seq<Channel>, ch: Channel, v: real)
    requires !ch.output && ch.kind == Lag
    requires v == ch.state + ch.gain * (DriveTarget(cs, ch) + ch.offset - ch.state)
    ensures Next(cs, ch) == ch.(state := Clamp(ch, v) as real)
  {
    hide Clamp, DriveTarget, Part;
    var d := DriveTarget(cs, ch) + ch.offset - ch.state;
    PartIs(ch.gain, d);
    SameClamp(ch, ch.state + Part(ch.gain, d), v);
  }

  lemma SameClamp(ch: Channel, v: real, w: real)
    requires v == w
    ensures Clamp(ch, v) == Clamp(ch, w)
  {
  }

  lemma Target(cs: seq<Channel>, ch: Channel, target: real)
    requires Validated(cs)
    requires if ch.drive == NO_DRIVE then target == 0.0 else exists d :: d in cs && d.id == ch.drive && d.state == target
    ensures DriveTarget(cs, ch) == target
  {
    if ch.drive != NO_DRIVE {
      hide DriveTarget;
      var d :| d in cs && d.id == ch.drive && d.state == target;
      DrivenBy(cs, ch, d);
    }
  }

  /** Between whole numbers: less than 1 from the exact point, on the side of zero. */
  lemma LagPoint(gain: real, s: int, t: int)
    ensures Cut(LagNext(gain, s, t), s as real + gain * ((t - s) as real))
  {
    CutIs(s as real + gain * ((t - s) as real));
  }

  /** While the gain makes at least 1 of the distance, every step gets strictly closer. */
  lemma LagCloser(gain: real, s: int, t: int)
    requires 0.0 < gain <= 1.0 && gain * (Distance(s, t) as real) >= 1.0
    ensures Between(s, LagNext(gain, s, t), t) && Distance(LagNext(gain, s, t), t) < Distance(s, t)
  {
    hide LagNext;
    LagStep(gain, s, t);
  }
}
