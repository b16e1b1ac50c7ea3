/** Failure-carrying results shared by every module of the model.

    The source reports two kinds of failure: a returned `Err` (a recoverable error the
    caller sees) and a `panic!`, `assert!` or failed `.unwrap()` (which aborts the whole
    run). Both are values here, so that every operation is total and its error paths
    can be stated. */
module Results {

  datatype Option<+T> = None | Some(value: T) {
    function GetOr(default: T): T {
      match this
      case Some(v) => v
      case None => default
    }
  }

  /** The messages the source's errors and panics carry, with their variable parts;
      `Ipv4Cidr.MsgText` spells each one out. */
  datatype Msg =
    | NetworkTooLong
    | CutToSmaller
    | NextOverflowed
    | ShiftOverflow
    | HostsTooLong
    | InvalidDigit
    | PosOverflow
    | EmptyInteger
    | InvalidAddressMask
    | InvalidAddress(text: string)
    | InvalidCidrFormat(text: string)
    | InvalidIpAddress(text: string)
    | InvalidSubnetMask(text: string)
    | BroadcastFailed(inner: Msg)
    | MinimumFailed(addr: nat, mask: nat, inner: Msg)
    | Unwrapped(inner: Msg)
    | StartMaskTooBig(mask: nat)
    | NextPastSubnet(next: nat, addr: nat, mask: nat)
    | IndexOutOfBounds(len: nat, index: nat)
    | UnwrapNone
    | DuplicateFound(index: nat)
    | DuplicateSrcIndex(src: nat, block: nat)
    | ConflictingDuplicate(addr: nat, mask: nat)
    | GapAfterReduction(bAddr: nat, bMask: nat, sAddr: nat, sMask: nat, nAddr: nat, nMask: nat)
    | GapOverrun(bAddr: nat, bMask: nat, vAddr: nat, vMask: nat, sAddr: nat, sMask: nat,
        pAddr: nat, pMask: nat)

  /** `Error` is a returned `Err`; `Panic` is an aborted run. */
  datatype Fault = Error(msg: Msg) | Panic(msg: Msg)

  datatype Result<+T> = Ok(value: T) | Err(fault: Fault) {
    predicate IsFailure() { Err? }

    function PropagateFailure<U>(): Result<U>
      requires Err?
    {
      Err(fault)
    }

    function Extract(): T
      requires Ok?
    {
      value
    }

    /** What `.unwrap()` does to a result: a returned error becomes a panic. A panic
        inside the call never reaches `.unwrap()`, so it stays as it is. */
    function Unwrap(): Result<T> {
      match this
      case Ok(v) => Ok(v)
      case Err(f) => if f.Panic? then Err(f) else Err(Panic(Unwrapped(f.msg)))
    }
  }

  /** Applies `f` to the elements in order and collects the values; the first element
      whose result is an `Err` aborts the run with that fault, as `?` inside a loop does. */
  function MapResults<A, B>(xs: seq<A>, f: A -> Result<B>): (r: Result<seq<B>>)
    decreases |xs|
  {
    if |xs| == 0 then Ok([])
    else
      var init :- MapResults(xs[..|xs| - 1], f);
      var last :- f(xs[|xs| - 1]);
      Ok(init + [last])
  }

  /** The run succeeds exactly when every element does, and then yields their values in
      order; when it fails, the fault is that of the first failing element. */
  lemma {:induction false} MapResultsSpec<A, B>(xs: seq<A>, f: A -> Result<B>)
    ensures MapResults(xs, f).Ok? <==> forall k :: 0 <= k < |xs| ==> f(xs[k]).Ok?
    ensures MapResults(xs, f).Ok? ==> var ys := MapResults(xs, f).value;
      |ys| == |xs| && forall k :: 0 <= k < |xs| ==> ys[k] == f(xs[k]).value
    ensures MapResults(xs, f).Err? ==> exists k :: (0 <= k < |xs|
      && f(xs[k]) == Err(MapResults(xs, f).fault) && forall j :: 0 <= j < k ==> f(xs[j]).Ok?)
    decreases |xs|
  {
    if |xs| > 0 {
      var init := xs[..|xs| - 1];
      MapResultsSpec(init, f);
      assert forall k :: 0 <= k < |init| ==> init[k] == xs[k];
      if MapResults(init, f).Ok? && f(xs[|xs| - 1]).Err? {
        assert f(xs[|xs| - 1]) == Err(MapResults(xs, f).fault);
      }
    }
  }

  /** Running on one more element. */
  lemma MapResultsSnoc<A, B>(xs: seq<A>, x: A, f: A -> Result<B>)
    ensures MapResults(xs + [x], f) ==
      if MapResults(xs, f).Err? then MapResults(xs, f)
      else if f(x).Err? then Err(f(x).fault)
      else Ok(MapResults(xs, f).value + [f(x).value])
  {
    assert (xs + [x])[..|xs|] == xs;
  }

  /** Once the run has failed, later elements do not matter. */
  lemma {:induction false} MapResultsAbort<A, B>(xs: seq<A>, later: seq<A>, f: A -> Result<B>)
    requires MapResults(xs, f).Err?
    ensures MapResults(xs + later, f) == MapResults(xs, f)
    decreases |later|
  {
    if |later| > 0 {
      var all := xs + later;
      MapResultsAbort(xs, later[..|later| - 1], f);
      assert all[..|all| - 1] == xs + later[..|later| - 1];
    } else {
      assert xs + later == xs;
    }
  }
}
