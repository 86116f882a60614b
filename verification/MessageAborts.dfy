/** A sender can give up a message in the middle. The receiver then behaves as if no chunk of it had
    come, but for the sequence numbers. */
module MessageAborts {
  import opened SecureChannel
  import Seqs

  /** The negotiated state behind the chunks, by what unpacking does to it alone. */
  function CoreThrough(env: Env, core: Core, q: seq<RawChunk>): Core
    decreases |q|
  {
    if q == [] then core else CoreThrough(env, Unpack(env, core, q[0]).core, q[1..])
  }

  /** Behind an accepted abort chunk nothing waits and nothing is counted. */
  lemma AbortForgets(env: Env, w: Work, a: RawChunk)
    requires a.chunkType.Abort? && ProcessChunk(env, w, a).status.Good?
    ensures var o := ProcessChunk(env, w, a);
            && o.work.decrypted == [] && o.work.decryptedCount == 0 && o.work.decryptedLength == 0
            && o.delivered == [] && o.work.core == Unpack(env, w.core, a).core
  {
  }

  /** An intermediate chunk delivers nothing. */
  lemma IntermediateWaits(env: Env, w: Work, c: RawChunk)
    requires c.chunkType.Intermediate? && ProcessChunk(env, w, c).status.Good?
    ensures var o := ProcessChunk(env, w, c);
            && o.delivered == [] && o.work.core == Unpack(env, w.core, c).core
  {
  }

  /** Whatever waited and was counted before, intermediate chunks that end in an abort chunk deliver
      nothing and leave nothing behind, and the rest of the queue is processed as from a clean start. */
  lemma {:induction false} AbortedMessage(env: Env, w: Work, front: seq<RawChunk>, a: RawChunk, q: seq<RawChunk>)
    requires a.chunkType.Abort? && forall i :: 0 <= i < |front| ==> front[i].chunkType.Intermediate?
    requires var p := ProcessChunks(env, w, front + [a]); p.status.Good? && !p.closed
    ensures ProcessChunks(env, w, front + [a]).delivered == []
    ensures ProcessChunks(env, w, front + [a] + q)
            == ProcessChunks(env, Work(CoreThrough(env, w.core, front + [a]), [], 0, 0), q)
    decreases |front|
  {
    hide ProcessChunk, Unpack;
    var first := (front + [a])[0];
    var o := ProcessChunk(env, w, first);
    if front == [] {
      assert front + [a] == [a] && [a][1..] == [];
      assert front + [a] + q == [a] + q && ([a] + q)[1..] == q;
      AbortForgets(env, w, a);
      Seqs.Empty(ProcessChunks(env, o.work, q).delivered);
    } else {
      Seqs.Uncons(front, [a]);
      Seqs.Uncons(front, [a] + q);
      Seqs.Assoc(front, [a], q);
      Seqs.Assoc(front[1..], [a], q);
      IntermediateWaits(env, w, first);
      Seqs.Empty(ProcessChunks(env, o.work, front[1..] + [a]).delivered);
      Seqs.Empty(ProcessChunks(env, o.work, front[1..] + [a] + q).delivered);
      AbortedMessage(env, o.work, front[1..], a, q);
    }
  }
}
