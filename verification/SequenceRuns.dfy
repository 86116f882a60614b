/** The sequence numbers of the symmetric chunks a channel accepts, over whole runs. */
module SequenceRuns {
  import opened Words
  import opened Wire
  import opened SecureChannel
  import opened SequenceNumbers

  /** A chunk and the channel it arrives at. */
  datatype Arrival = Arrival(env: Env, core: Core, chunk: FullChunk)

  function Unpacking(a: Arrival): Unpacked {
    UnpackMSG(a.env, a.core, a.chunk)
  }

  /** Every chunk is accepted, and between two of them nothing touches the counter, as open requests
      and responses would. Clock, tokens, keys, state and limits may change. */
  ghost predicate AcceptedRun(run: seq<Arrival>) {
    && (forall i :: 0 <= i < |run| ==> Unpacking(run[i]).status.Good?)
    && forall i :: 0 <= i < |run| - 1 ==>
         run[i + 1].core.receiveSequenceNumber == Unpacking(run[i]).core.receiveSequenceNumber
  }

  /** The number that an accepted chunk carries. */
  function NumberIn(a: Arrival): UInt32
    requires Unpacking(a).status.Good?
  {
    AcceptedMovesCounter(a.env, a.core, a.chunk);
    var core' := CheckSymHeader(a.core, DecodeU32(a.chunk, 12), a.env.now).0;
    DecodeU32(DecryptAndVerify(a.env.suite, a.core.securityMode, core'.remoteKeys, a.chunk).1, 16)
  }

  function NumbersIn(run: seq<Arrival>): (r: seq<UInt32>)
    requires forall i :: 0 <= i < |run| ==> Unpacking(run[i]).status.Good?
    ensures |r| == |run| && forall i :: 0 <= i < |r| ==> r[i] == NumberIn(run[i])
  {
    if run == [] then [] else [NumberIn(run[0])] + NumbersIn(run[1..])
  }

  lemma {:induction false} RunIsAccepted(run: seq<Arrival>)
    requires AcceptedRun(run)
    ensures run != [] ==> AcceptsAll(run[0].core.receiveSequenceNumber, NumbersIn(run))
    decreases |run|
  {
    hide UnpackMSG, DecryptAndVerify, CheckSymHeader, DecodeU32, Accepts;
    if run != [] {
      var a := run[0];
      AcceptedMovesCounter(a.env, a.core, a.chunk);
      assert forall i :: 0 <= i < |run[1..]| ==> run[1..][i] == run[i + 1];
      RunIsAccepted(run[1..]);
      assert NumbersIn(run)[1..] == NumbersIn(run[1..]);
    }
  }

  /** The same sequence number is accepted twice only with at least 4294965249 acceptances from the
      one to the other. */
  lemma NoEarlyReuse(run: seq<Arrival>, i: nat, j: nat)
    requires AcceptedRun(run) && i < j < |run| && NumberIn(run[i]) == NumberIn(run[j])
    ensures j - i >= 4294965249
  {
    hide UnpackMSG, NumberIn, AcceptsAll;
    RunIsAccepted(run);
    RepeatsAreFar(run[0].core.receiveSequenceNumber, NumbersIn(run), i, j);
  }
}
