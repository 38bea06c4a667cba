/** The life cycle of the process-wide statement cache.

    The static state is the current instance and the `closed` flag. Java
    object identity is modelled by a heap: every constructed cache object is
    appended to it, and a reference is its position there. Each cache object
    owns one prepared statement per supported query; a handle records how many
    times its statement has been released.
 */
module Lifecycle {
  import opened Base

  /** The prepared statements a cache object owns, one per field. */
  datatype Statement =
    | SourceurlOfNote | ContentOfNote | DataOfResource | DataLengthOfResource
    | GuidOfNote | CreatedOfNote | UpdatedOfNote | RecognitionOfResource
    | UsnOfResource | OwnerguidOfResource | MimeOfResource | HashesOfOwner
    | UsnOfNote | FilenameOfResource | HashOfResource | TitleOfNote | IsNoteActive

  /** The statement fields in declaration order. */
  const Declared: seq<Statement> := [
    SourceurlOfNote, ContentOfNote, DataOfResource, DataLengthOfResource,
    GuidOfNote, CreatedOfNote, UpdatedOfNote, RecognitionOfResource,
    UsnOfResource, OwnerguidOfResource, MimeOfResource, HashesOfOwner,
    UsnOfNote, FilenameOfResource, HashOfResource, TitleOfNote, IsNoteActive
  ]

  datatype Handle = Handle(statement: Statement, releases: nat)

  /** One cache object: its statement handles, in field order. */
  datatype Pstmts = Pstmts(handles: seq<Handle>)

  /** The statics, and every cache object ever constructed. */
  datatype World = World(theInstance: Option<nat>, closed: bool, heap: seq<Pstmts>)

  const Init: World := World(None, false, [])

  /** The cache fields own every statement kind once, in declaration order. */
  lemma DeclaredOwnsEveryStatementOnce()
    ensures |Declared| == 17
    ensures forall s: Statement :: s in Declared
    ensures forall i, j :: 0 <= i < j < |Declared| ==> Declared[i] != Declared[j]
  {
    forall s: Statement ensures s in Declared {
      match s
      case SourceurlOfNote => assert Declared[0] == s;
      case ContentOfNote => assert Declared[1] == s;
      case DataOfResource => assert Declared[2] == s;
      case DataLengthOfResource => assert Declared[3] == s;
      case GuidOfNote => assert Declared[4] == s;
      case CreatedOfNote => assert Declared[5] == s;
      case UpdatedOfNote => assert Declared[6] == s;
      case RecognitionOfResource => assert Declared[7] == s;
      case UsnOfResource => assert Declared[8] == s;
      case OwnerguidOfResource => assert Declared[9] == s;
      case MimeOfResource => assert Declared[10] == s;
      case HashesOfOwner => assert Declared[11] == s;
      case UsnOfNote => assert Declared[12] == s;
      case FilenameOfResource => assert Declared[13] == s;
      case HashOfResource => assert Declared[14] == s;
      case TitleOfNote => assert Declared[15] == s;
      case IsNoteActive => assert Declared[16] == s;
    }
  }

  predicate OwnsDeclared(p: Pstmts)
  {
    && |p.handles| == |Declared|
    && forall i :: 0 <= i < |p.handles| ==> p.handles[i].statement == Declared[i]
  }

  predicate AllReleased(p: Pstmts, times: nat)
  {
    forall i :: 0 <= i < |p.handles| ==> p.handles[i].releases == times
  }

  /** A freshly constructed cache object: every statement prepared and open. */
  function Construct(): (p: Pstmts)
    ensures OwnsDeclared(p) && AllReleased(p, 0)
  {
    Pstmts(seq(|Declared|, i requires 0 <= i < |Declared| => Handle(Declared[i], 0)))
  }

  /** Releases every statement the object owns, each once. */
  function ReleaseAll(p: Pstmts): (q: Pstmts)
    ensures |q.handles| == |p.handles|
    ensures OwnsDeclared(p) ==> OwnsDeclared(q)
    ensures forall n: nat :: AllReleased(p, n) ==> AllReleased(q, n + 1)
  {
    Pstmts(seq(|p.handles|, i requires 0 <= i < |p.handles| =>
      Handle(p.handles[i].statement, p.handles[i].releases + 1)))
  }

  /** `getInstance`: fails once the cache is closed; otherwise returns the current
      instance, constructing it first if there is none. When preparing the
      statements fails (`prepareSucceeds` false) it returns null and nothing is kept. */
  function GetInstance(w: World, prepareSucceeds: bool): (r: (World, Outcome<Option<nat>>))
    ensures w.closed ==> r == (w, Threw(IllegalState))
    ensures !w.closed && w.theInstance.Some? ==> r == (w, Returned(w.theInstance))
    ensures !w.closed && w.theInstance.None? && prepareSucceeds ==>
              && r.1 == Returned(Some(|w.heap|))
              && r.0 == World(Some(|w.heap|), false, w.heap + [Construct()])
    ensures !w.closed && w.theInstance.None? && !prepareSucceeds ==> r == (w, Returned(None))
  {
    if w.closed then (w, Threw(IllegalState))
    else if w.theInstance.None? && !w.closed then
      if prepareSucceeds then
        var created := |w.heap|;
        (World(Some(created), w.closed, w.heap + [Construct()]), Returned(Some(created)))
      else
        (w, Returned(None))
    else
      (w, Returned(w.theInstance))
  }

  /** `close` on the object at `self`: a no-op once the cache is closed; otherwise
      it marks the cache closed, forgets the instance and releases every
      statement `self` owns, leaving every other object as it was. */
  function Close(w: World, self: nat): (w': World)
    requires self < |w.heap|
    ensures w.closed ==> w' == w
    ensures !w.closed ==>
              && w'.closed
              && w'.theInstance == None
              && |w'.heap| == |w.heap|
              && w'.heap[self] == ReleaseAll(w.heap[self])
              && forall i :: 0 <= i < |w.heap| && i != self ==> w'.heap[i] == w.heap[i]
  {
    if w.closed then w
    else World(None, true, w.heap[self := ReleaseAll(w.heap[self])])
  }

  /** Once `getInstance` has handed out an instance, every further call hands out
      the same one and changes nothing. */
  lemma GetInstanceThenSame(w: World, first: bool, again: bool)
    requires GetInstance(w, first).1.Returned?
    requires GetInstance(w, first).1.value.Some?
    ensures var w1 := GetInstance(w, first).0;
            GetInstance(w1, again) == (w1, GetInstance(w, first).1)
  {
  }

  /** A second `close` changes nothing. */
  lemma CloseIdempotent(w: World, self: nat)
    requires self < |w.heap|
    ensures Close(Close(w, self), self) == Close(w, self)
  {
  }

  /** The states reachable from program start: at most one object is ever
      constructed; while open it is the current instance and none of its
      statements has been released; once closed there is no instance and every
      statement has been released exactly once. */
  predicate Valid(w: World)
  {
    && |w.heap| <= 1
    && (forall i :: 0 <= i < |w.heap| ==> OwnsDeclared(w.heap[i]))
    && (!w.closed ==> w.theInstance == (if |w.heap| == 0 then None else Some(0)))
    && (!w.closed ==> forall i :: 0 <= i < |w.heap| ==> AllReleased(w.heap[i], 0))
    && (w.closed ==> w.theInstance.None? && |w.heap| == 1 && AllReleased(w.heap[0], 1))
  }

  lemma InitValid()
    ensures Valid(Init)
  {
  }

  /** A call a client can make: `getInstance`, or `close` on a reference it holds. */
  datatype Call = GetInstanceCall(prepareSucceeds: bool) | CloseCall(self: nat)

  datatype Response =
    | Got(outcome: Outcome<Option<nat>>)   // what getInstance returned or threw
    | Closed                               // close returned
    | NoSuchObject                         // close on a reference no constructor returned

  /** One call, with its effect and what the caller sees. */
  function Step(w: World, c: Call): (r: (World, Response))
    ensures Valid(w) ==> Valid(r.0)
    ensures c.GetInstanceCall? ==> r.1.Got?
    ensures w.closed ==> r.0 == w
    ensures w.closed && c.GetInstanceCall? ==> r.1 == Got(Threw(IllegalState))
    ensures r.1 == Closed ==> r.0.closed
    ensures Valid(w) && r.1.Got? && r.1.outcome.Returned? && r.1.outcome.value.Some? ==>
              r.1.outcome.value.value == 0
  {
    match c
    case GetInstanceCall(ok) =>
      var (w', out) := GetInstance(w, ok);
      (w', Got(out))
    case CloseCall(self) =>
      if self < |w.heap| then
        var w' := Close(w, self);
        assert Valid(w) && !w.closed ==> AllReleased(w'.heap[0], 1);
        (w', Closed)
      else (w, NoSuchObject)
  }

  /** A sequence of calls, one after the other. */
  function Run(w: World, calls: seq<Call>): (r: (World, seq<Response>))
    ensures |r.1| == |calls|
    decreases |calls|
  {
    if |calls| == 0 then (w, [])
    else
      var (w1, out) := Step(w, calls[0]);
      var (w2, outs) := Run(w1, calls[1..]);
      (w2, [out] + outs)
  }

  /** Every reachable state is valid. */
  lemma {:induction false} RunKeepsValid(w: World, calls: seq<Call>)
    requires Valid(w)
    ensures Valid(Run(w, calls).0)
    decreases |calls|
  {
    if |calls| > 0 {
      RunKeepsValid(Step(w, calls[0]).0, calls[1..]);
    }
  }

  /** Singleton: every instance `getInstance` hands out, in any run from a valid
      state, is the one object at heap position 0. */
  lemma {:induction false} OnlyOneInstance(w: World, calls: seq<Call>, k: nat, ref: nat)
    requires Valid(w)
    requires k < |calls|
    requires Run(w, calls).1[k] == Got(Returned(Some(ref)))
    ensures ref == 0
    decreases |calls|
  {
    var w1 := Step(w, calls[0]).0;
    if k > 0 {
      assert Run(w, calls).1[k] == Run(w1, calls[1..]).1[k - 1];
      OnlyOneInstance(w1, calls[1..], k - 1, ref);
    }
  }

  /** Once closed, no call changes anything any more. */
  lemma {:induction false} ClosedStaysClosed(w: World, calls: seq<Call>)
    requires w.closed
    ensures Run(w, calls).0 == w
    decreases |calls|
  {
    if |calls| > 0 {
      ClosedStaysClosed(Step(w, calls[0]).0, calls[1..]);
    }
  }

  /** Once closed, every later `getInstance` throws an illegal-state error. */
  lemma {:induction false} ClosedIsFinal(w: World, calls: seq<Call>, k: nat)
    requires w.closed
    requires k < |calls| && calls[k].GetInstanceCall?
    ensures Run(w, calls).1[k] == Got(Threw(IllegalState))
    decreases |calls|
  {
    var w1 := Step(w, calls[0]).0;
    if k > 0 {
      assert Run(w, calls).1[k] == Run(w1, calls[1..]).1[k - 1];
      ClosedIsFinal(w1, calls[1..], k - 1);
    }
  }

  /** A run is its first `k` calls followed by the rest. */
  lemma {:induction false} RunSplit(w: World, calls: seq<Call>, k: nat)
    requires k <= |calls|
    ensures var mid := Run(w, calls[..k]).0;
            && Run(w, calls).0 == Run(mid, calls[k..]).0
            && Run(w, calls).1 == Run(w, calls[..k]).1 + Run(mid, calls[k..]).1
    decreases k
  {
    if k == 0 {
      assert calls[..k] == [] && calls[k..] == calls;
    } else {
      var w1 := Step(w, calls[0]).0;
      RunSplit(w1, calls[1..], k - 1);
      assert calls[1..][..k - 1] == calls[..k][1..];
      assert calls[1..][k - 1..] == calls[k..];
    }
  }

  /** In any run, once a `close` has returned, every later `getInstance` throws
      an illegal-state error. */
  lemma UseAfterClose(w: World, calls: seq<Call>, k: nat, m: nat)
    requires k < m < |calls|
    requires Run(w, calls).1[k] == Closed
    requires calls[m].GetInstanceCall?
    ensures Run(w, calls).1[m] == Got(Threw(IllegalState))
  {
    RunSplit(w, calls, k);
    var before := Run(w, calls[..k]).0;
    var rest := calls[k..];
    var w1 := Step(before, rest[0]).0;
    assert Run(before, rest).1[0] == Closed;
    assert w1.closed;
    assert Run(before, rest).1 == [Step(before, rest[0]).1] + Run(w1, rest[1..]).1;
    ClosedIsFinal(w1, rest[1..], m - k - 1);
    assert Run(w, calls).1[m] == Run(before, rest).1[m - k];
  }

  /** However many times `close` is called, no statement is released twice. */
  lemma NoDoubleRelease(calls: seq<Call>, i: nat, j: nat)
    requires i < |Run(Init, calls).0.heap|
    requires j < |Run(Init, calls).0.heap[i].handles|
    ensures Run(Init, calls).0.heap[i].handles[j].releases <= 1
  {
    RunKeepsValid(Init, calls);
  }

  /** A successful first `close` releases every one of the object's statements. */
  lemma CloseReleasesEverything(w: World)
    requires Valid(w) && !w.closed && |w.heap| == 1
    ensures var w' := Close(w, 0);
            w'.closed && OwnsDeclared(w'.heap[0]) && AllReleased(w'.heap[0], 1)
  {
  }
}
