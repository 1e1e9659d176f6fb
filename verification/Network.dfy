/** Two programs that write into buffers, flush them into FIFO channels, and block on reads. Whatever one schedule
    can complete, every schedule completes. */
module Network {

  datatype Action<+M, +K> = Write(msg: M) | Flush | Read(kind: K)

  datatype Prog<+M, +K> = End | Do(action: Action<M, K>, next: Prog<M, K>)

  /** The numbers of messages on the way, seen from one side: delivered to and buffered for the other side,
      then delivered from and buffered by it. */
  datatype Counts = Counts(sent: nat, buffered: nat, arrived: nat, theirs: nat)

  const NOTHING := Counts(0, 0, 0, 0)

  /** The same counts seen from the other side. */
  function Swap(n: Counts): Counts { Counts(n.arrived, n.theirs, n.sent, n.buffered) }

  function Len<M, K>(p: Prog<M, K>): nat { if p.End? then 0 else 1 + Len(p.next) }

  predicate Enabled<M, K>(a: Action<M, K>, n: Counts) { a.Read? ==> n.arrived > 0 }

  function After<M, K>(a: Action<M, K>, n: Counts): Counts
    requires Enabled(a, n)
  {
    match a
    case Write(_) => n.(buffered := n.buffered + 1)
    case Flush => n.(sent := n.sent + n.buffered, buffered := 0)
    case Read(_) => n.(arrived := n.arrived - 1)
  }

  /** Some schedule of the two programs runs both to their ends. */
  ghost predicate Completes<M, K>(p: Prog<M, K>, q: Prog<M, K>, n: Counts)
    decreases Len(p) + Len(q)
  {
    || (p.End? && q.End?)
    || (p.Do? && Enabled(p.action, n) && Completes(p.next, q, After(p.action, n)))
    || (q.Do? && Enabled(q.action, Swap(n)) && Completes(p, q.next, Swap(After(q.action, Swap(n)))))
  }

  lemma {:induction false} Symmetric<M, K>(p: Prog<M, K>, q: Prog<M, K>, n: Counts)
    requires Completes(p, q, n)
    ensures Completes(q, p, Swap(n))
    decreases Len(p) + Len(q)
  {
    if p.Do? && Enabled(p.action, n) && Completes(p.next, q, After(p.action, n)) {
      Symmetric(p.next, q, After(p.action, n));
    } else if q.Do? && Enabled(q.action, Swap(n)) && Completes(p, q.next, Swap(After(q.action, Swap(n)))) {
      Symmetric(p, q.next, Swap(After(q.action, Swap(n))));
    }
  }

  /** Delivering buffered messages early never hurts. */
  lemma {:induction false} EarlyDelivery<M, K>(p: Prog<M, K>, q: Prog<M, K>, n: Counts, k: nat)
    requires Completes(p, q, n) && k <= n.buffered
    ensures Completes(p, q, n.(sent := n.sent + k, buffered := n.buffered - k))
    decreases Len(p) + Len(q)
  {
    var early := n.(sent := n.sent + k, buffered := n.buffered - k);
    if p.Do? && Enabled(p.action, n) && Completes(p.next, q, After(p.action, n)) {
      EarlyDelivery(p.next, q, After(p.action, n), if p.action.Flush? then 0 else k);
      EarlyThenStep(p.action, n, k);
    } else if q.Do? && Enabled(q.action, Swap(n)) && Completes(p, q.next, Swap(After(q.action, Swap(n)))) {
      EarlyDelivery(p, q.next, Swap(After(q.action, Swap(n))), k);
      EarlyThenOther(q.action, n, k);
    }
  }

  lemma EarlyThenStep<M, K>(a: Action<M, K>, n: Counts, k: nat)
    requires Enabled(a, n) && k <= n.buffered
    ensures var early, m := n.(sent := n.sent + k, buffered := n.buffered - k), After(a, n);
            var later := if a.Flush? then 0 else k;
            && Enabled(a, early) && later <= m.buffered
            && After(a, early) == m.(sent := m.sent + later, buffered := m.buffered - later)
  {
  }

  lemma EarlyThenOther<M, K>(a: Action<M, K>, n: Counts, k: nat)
    requires Enabled(a, Swap(n)) && k <= n.buffered
    ensures var early, m := n.(sent := n.sent + k, buffered := n.buffered - k), Swap(After(a, Swap(n)));
            && Enabled(a, Swap(early)) && k <= m.buffered
            && Swap(After(a, Swap(early))) == m.(sent := m.sent + k, buffered := m.buffered - k)
  {
  }

  /** Steps of the two sides commute and leave each other enabled. */
  lemma StepsCommute<M, K>(a: Action<M, K>, b: Action<M, K>, n: Counts)
    requires Enabled(a, n) && Enabled(b, Swap(n))
    ensures var m := Swap(After(b, Swap(n)));
            && Enabled(b, Swap(After(a, n))) && Enabled(a, m)
            && Swap(After(b, Swap(After(a, n)))) == After(a, m)
  {
  }

  /** No enabled step is ever a wrong one. */
  lemma {:induction false} StepKeepsCompleting<M, K>(p: Prog<M, K>, q: Prog<M, K>, n: Counts)
    requires Completes(p, q, n) && p.Do? && Enabled(p.action, n)
    ensures Completes(p.next, q, After(p.action, n))
    decreases Len(p) + Len(q)
  {
    if q.Do? && Enabled(q.action, Swap(n)) && Completes(p, q.next, Swap(After(q.action, Swap(n)))) {
      StepKeepsCompleting(p, q.next, Swap(After(q.action, Swap(n))));
      StepsCommute(p.action, q.action, n);
    }
  }

  /** Taking an enabled step of the first program neither gains nor loses completion. */
  lemma Advance<M, K>(p: Prog<M, K>, q: Prog<M, K>, n: Counts)
    requires p.Do? && Enabled(p.action, n)
    ensures Completes(p, q, n) <==> Completes(p.next, q, After(p.action, n))
  {
    if Completes(p, q, n) {
      StepKeepsCompleting(p, q, n);
    }
  }

  /** The same for the second program. */
  lemma AdvanceOther<M, K>(p: Prog<M, K>, q: Prog<M, K>, n: Counts)
    requires q.Do? && Enabled(q.action, Swap(n))
    ensures Completes(p, q, n) <==> Completes(p, q.next, Swap(After(q.action, Swap(n))))
  {
    if Completes(p, q, n) {
      Symmetric(p, q, n);
      StepKeepsCompleting(q, p, Swap(n));
      Symmetric(q.next, p, After(q.action, Swap(n)));
    }
  }
}
