/** How requests end: when exactly one is answered, and when exactly one is dropped. */
module PipelineEnds {
  import opened FirstWrites
  import opened Pipeline

  /** A message that is no query, or a ring that holds all it can when the request is offered to it. */
  ghost predicate DropReason(cap: nat, s: State, e: Event, i: nat) {
    match e
    case Receive(_) => i == |s.received| && |s.work| == cap
    case WorkLook => s.workHand == [i] && s.workFound == [] && !QueryOf(s, i).accepted
    case WorkPut =>
      s.workHand == [i] && |s.workFound| == 1 && (if s.workFound[0] == 0 then |s.forward| else |s.bundle|) == cap
    case ReplyPut => s.replyHand == [i] && |s.bundle| == cap
    case _ => false
  }

  /** The answering thread sends the reply to the request in its hand. */
  ghost predicate AnswerReason(s: State, e: Event, i: nat) {
    e.BundleReply? && s.bundleHand == [i]
  }

  /** A step answers at most one request, and only for this reason. */
  lemma StepAnswers(cap: nat, s: State, e: Event)
    ensures var t := Step(cap, s, e);
      && (t.answered == s.answered || exists i :: AnswerReason(s, e, i) && t.answered == s.answered + [i])
      && (forall i :: AnswerReason(s, e, i) ==> t.answered == s.answered + [i])
  {
    hide HeardBy, Lookup;
    if e.BundleReply? && |s.bundleHand| == 1 { assert s.bundleHand == [s.bundleHand[0]]; }
  }

  /** A step drops at most one request, and only for these reasons. */
  lemma StepDrops(cap: nat, s: State, e: Event)
    requires Hands(s) && |s.work| <= cap && |s.forward| <= cap && |s.bundle| <= cap
    ensures var t := Step(cap, s, e);
      && (t.dropped == s.dropped || exists i :: DropReason(cap, s, e, i) && t.dropped == s.dropped + [i])
      && (forall i :: DropReason(cap, s, e, i) ==> t.dropped == s.dropped + [i])
  {
    hide Lookup, HeardBy;
    match e
    case Receive(q) => assert DropReason(cap, s, e, |s.received|) || |s.work| < cap;
    case WorkLook => if |s.workHand| == 1 { assert s.workHand == [s.workHand[0]]; }
    case WorkPut => if |s.workHand| == 1 { assert s.workHand == [s.workHand[0]]; }
    case ReplyPut => if |s.replyHand| == 1 { assert s.replyHand == [s.replyHand[0]]; }
    case _ =>
  }

  /** The state before step `k` of a run. */
  ghost function Before(cap: nat, s: State, es: seq<Event>, k: nat): State
    requires k <= |es|
  {
    Run(cap, s, es[..k])
  }

  lemma BeforePrefix(cap: nat, s: State, es: seq<Event>, n: nat)
    requires n <= |es|
    ensures forall k :: 0 <= k <= n ==> Before(cap, s, es[..n], k) == Before(cap, s, es, k)
  {
    forall k | 0 <= k <= n ensures Before(cap, s, es[..n], k) == Before(cap, s, es, k) {
      assert es[..n][..k] == es[..k];
    }
  }

  /** Step `k` of the run answers, or drops, the request. */
  ghost predicate AnsweredAt(cap: nat, s: State, es: seq<Event>, i: nat, k: nat) {
    k < |es| && AnswerReason(Before(cap, s, es, k), es[k], i)
  }

  ghost predicate DroppedAt(cap: nat, s: State, es: seq<Event>, i: nat, k: nat) {
    k < |es| && DropReason(cap, Before(cap, s, es, k), es[k], i)
  }

  /**
   Over every run: a request is among the answered ones exactly when the answering thread, with it in its hand, has sent
   a reply; and among the dropped ones exactly when it was rejected, or offered to a ring that held `cap` items.
   */
  lemma {:induction false} EndsExactlyWhen(cap: nat, configured: seq<Record>, es: seq<Event>, i: nat)
    ensures var init := Init(configured); var s := Run(cap, init, es);
      && (i in s.answered <==> exists k :: AnsweredAt(cap, init, es, i, k))
      && (i in s.dropped <==> exists k :: DroppedAt(cap, init, es, i, k))
  {
    var init := Init(configured);
    if es != [] {
      var n := |es| - 1;
      var p := es[..n];
      EndsExactlyWhen(cap, configured, p, i);
      RunOnePlace(cap, configured, p);
      AllAccountedFor(cap, configured, p);
      StepAnswers(cap, Run(cap, init, p), es[n]);
      StepDrops(cap, Run(cap, init, p), es[n]);
      hide Step, OnePlace, DropReason, AnswerReason, Init;
      EndsStep(cap, init, es, i);
    }
  }

  lemma EndsStep(cap: nat, init: State, es: seq<Event>, i: nat)
    requires es != []
    ensures var n := |es| - 1;
      && ((exists k :: AnsweredAt(cap, init, es, i, k)) <==>
        (exists k :: AnsweredAt(cap, init, es[..n], i, k)) || AnswerReason(Run(cap, init, es[..n]), es[n], i))
      && ((exists k :: DroppedAt(cap, init, es, i, k)) <==>
        (exists k :: DroppedAt(cap, init, es[..n], i, k)) || DropReason(cap, Run(cap, init, es[..n]), es[n], i))
  {
    hide Run, DropReason, AnswerReason;
    var n := |es| - 1;
    var p := es[..n];
    BeforePrefix(cap, init, es, n);
    assert Before(cap, init, es, n) == Run(cap, init, p);
    forall k: nat | k < n
      ensures AnsweredAt(cap, init, es, i, k) <==> AnsweredAt(cap, init, p, i, k)
      ensures DroppedAt(cap, init, es, i, k) <==> DroppedAt(cap, init, p, i, k)
    {
      assert Before(cap, init, p, k) == Before(cap, init, es, k);
    }
    assert AnsweredAt(cap, init, es, i, n) <==> AnswerReason(Run(cap, init, p), es[n], i);
    assert DroppedAt(cap, init, es, i, n) <==> DropReason(cap, Run(cap, init, p), es[n], i);
  }
}
