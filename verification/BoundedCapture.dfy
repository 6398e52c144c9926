// How the byte cap of a write cuts a stream that arrives in chunks
// (`writer.rs`, the body of the read loop).
module BoundedCapture {
  import opened Prelude

  // What is retained of an input under a cap: all of it, or its first `limit`
  // bytes.
  function Kept(cap: Option<nat>, input: seq<byte>): (kept: seq<byte>)
    ensures kept <= input
    ensures cap.Some? ==> |kept| == Min(cap.value, |input|)
    ensures Fits(cap, input) <==> kept == input
  {
    match cap
    case None => input
    case Some(limit) => input[..Min(limit, |input|)]
  }

  // How much of the next chunk fits, with `written` bytes already retained.
  function Accepted(cap: Option<nat>, written: nat, chunk: seq<byte>): (n: nat)
    ensures n <= |chunk|
  {
    match cap
    case None => |chunk|
    case Some(limit) => Min(SaturatingSub(limit, written), |chunk|)
  }

  // Cutting chunk by chunk retains what cutting the whole input would.
  lemma AcceptedExtendsKept(cap: Option<nat>, input: seq<byte>, chunk: seq<byte>)
    ensures var n := Accepted(cap, |Kept(cap, input)|, chunk);
      Kept(cap, input + chunk) == Kept(cap, input) + chunk[..n]
  {
    if cap.Some? && |input| >= cap.value {
      assert Kept(cap, input + chunk) == input[..cap.value];
    }
  }

  predicate Fits(cap: Option<nat>, input: seq<byte>) {
    cap.Some? ==> |input| <= cap.value
  }

  // While nothing has been cut, a chunk overflows exactly when the input does.
  lemma AcceptedAllIff(cap: Option<nat>, input: seq<byte>, chunk: seq<byte>)
    requires Fits(cap, input)
    ensures Kept(cap, input) == input
    ensures Accepted(cap, |input|, chunk) == |chunk| <==> Fits(cap, input + chunk)
  {
  }
}
