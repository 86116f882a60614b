/** Which keys a channel uses while its security token is being renewed: the change to the new token
    happens once, at the first chunk that carries it, and not before. */
module TokenRenewal {
  import opened Words
  import opened Wire
  import opened SecureChannel

  /** The token checks of a run of chunks, up to the first refusal. */
  function CheckAll(core: Core, ids: seq<UInt32>, now: int): (Core, Status)
    decreases |ids|
  {
    if ids == [] then (core, Good)
    else
      var (core', st) := CheckSymHeader(core, ids[0], now);
      if !st.Good? then (core', st) else CheckAll(core', ids[1..], now)
  }

  /** The first chunk that does not carry the given token. */
  function FirstOther(ids: seq<UInt32>, id: UInt32): (n: nat)
    ensures n <= |ids|
    ensures forall i :: 0 <= i < n ==> ids[i] == id
    ensures n < |ids| ==> ids[n] != id
  {
    if ids == [] || ids[0] != id then 0 else 1 + FirstOther(ids[1..], id)
  }

  /** A token has not outlived its lifetime, which is given in milliseconds of 10000 ticks. */
  predicate Alive(core: Core, token: Token, now: int) {
    !core.state.Open? || now <= token.createdAt + token.revisedLifetime * 10000
  }

  /** The server's change to the new token: both directions get the new keys. */
  function ServerRolled(core: Core): Core {
    core.(renewState := Normal, securityToken := core.altSecurityToken, altSecurityToken := NO_TOKEN,
          localKeys := core.nonces, remoteKeys := core.nonces)
  }

  /** The client already sends with the new keys: only what it receives changes. */
  function ClientRolled(core: Core): Core {
    core.(renewState := Normal, altSecurityToken := NO_TOKEN, remoteKeys := core.nonces)
  }

  /** Outside of a renewal the token id of a chunk is not looked at. */
  lemma {:induction false} NoRenewalNoCheck(core: Core, ids: seq<UInt32>, now: int)
    requires core.renewState.Normal? || core.renewState.Sent?
    requires Alive(core, core.securityToken, now)
    ensures CheckAll(core, ids, now) == (core, Good)
    decreases |ids|
  {
    if ids != [] {
      NoRenewalNoCheck(core, ids[1..], now);
    }
  }

  /** The server keeps the old token, keys and all, for every chunk before the first with another
      token id; that one completes the renewal if it carries the new token, and is refused without
      any change if it does not. */
  lemma {:induction false} ServerRollsOver(core: Core, ids: seq<UInt32>, now: int)
    requires core.renewState.NewTokenServer?
    requires Alive(core, core.securityToken, now) && Alive(core, core.altSecurityToken, now)
    ensures var n := FirstOther(ids, core.securityToken.tokenId);
            CheckAll(core, ids, now) ==
              if n == |ids| then (core, Good)
              else if ids[n] == core.altSecurityToken.tokenId then (ServerRolled(core), Good)
              else (core, BadSecureChannelTokenUnknown)
    decreases |ids|
  {
    if ids != [] {
      if ids[0] == core.securityToken.tokenId {
        ServerRollsOver(core, ids[1..], now);
      } else if ids[0] == core.altSecurityToken.tokenId {
        NoRenewalNoCheck(ServerRolled(core), ids[1..], now);
      }
    }
  }

  /** The same for the client, whose old token is the alternative one. */
  lemma {:induction false} ClientRollsOver(core: Core, ids: seq<UInt32>, now: int)
    requires core.renewState.NewTokenClient?
    requires Alive(core, core.securityToken, now) && Alive(core, core.altSecurityToken, now)
    ensures var n := FirstOther(ids, core.altSecurityToken.tokenId);
            CheckAll(core, ids, now) ==
              if n == |ids| then (core, Good)
              else if ids[n] == core.securityToken.tokenId then (ClientRolled(core), Good)
              else (core, BadSecureChannelTokenUnknown)
    decreases |ids|
  {
    if ids != [] {
      if ids[0] == core.altSecurityToken.tokenId {
        ClientRollsOver(core, ids[1..], now);
      } else if ids[0] == core.securityToken.tokenId {
        NoRenewalNoCheck(ClientRolled(core), ids[1..], now);
      }
    }
  }

  // ---------- expiry ----------

  /** The token a chunk was secured with: during a renewal the one its id names, and where both have
      that id, the one that was in use before. */
  ghost predicate Carries(core: Core, tokenId: UInt32, token: Token) {
    match core.renewState
    case Normal => token == core.securityToken
    case Sent => token == core.securityToken
    case NewTokenServer =>
      if tokenId == core.securityToken.tokenId then token == core.securityToken
      else tokenId == core.altSecurityToken.tokenId && token == core.altSecurityToken
    case NewTokenClient =>
      if tokenId == core.altSecurityToken.tokenId then token == core.altSecurityToken
      else tokenId == core.securityToken.tokenId && token == core.securityToken
  }

  /** A chunk passes the check if and only if it carries a token that is alive. */
  lemma CheckedExactly(core: Core, tokenId: UInt32, now: int)
    ensures CheckSymHeader(core, tokenId, now).1.Good? <==> exists t :: Carries(core, tokenId, t) && Alive(core, t, now)
    ensures CheckSymHeader(core, tokenId, now).1 == BadSecureChannelTokenUnknown <==> forall t :: !Carries(core, tokenId, t)
  {
    assert Carries(core, tokenId, core.securityToken) || Carries(core, tokenId, core.altSecurityToken)
           || forall t :: !Carries(core, tokenId, t);
  }

  /** Closed, with no policy, tokens or keys left. */
  ghost predicate Shut(core: Core, core': Core) {
    && core'.state.Closed? && !core'.hasPolicy
    && core'.securityToken == Token(0, 0, 0, 0) && core'.altSecurityToken == Token(0, 0, 0, 0)
    && core'.nonces == 0 && core'.localKeys == 0 && core'.remoteKeys == 0
    && core'.securityMode == core.securityMode && core'.receiveSequenceNumber == core.receiveSequenceNumber
  }

  /** A chunk that carries an expired token closes an open channel, with all that was buffered. */
  lemma ExpiryCloses(env: Env, w: Work, c: RawChunk, token: Token)
    requires c.messageType.MSG? || c.messageType.CLO?
    requires w.core.state.Open? && w.core.hasPolicy && DecodeU32(c.bytes, 8) == w.core.securityToken.channelId
    requires Carries(w.core, DecodeU32(c.bytes, 12), token) && !Alive(w.core, token, env.now)
    ensures var o := ProcessChunk(env, w, c);
            && Shut(w.core, o.work.core) && o.work == w.(core := o.work.core, decrypted := [])
            && o.delivered == [] && o.status == BadSecureChannelClosed && o.closed
  {
    hide DecodeU32;
  }

  /** On a closed channel nothing but hello, acknowledge and error messages gets through, and each
      of the others is refused without a trace. */
  lemma ClosedRefuses(env: Env, w: Work, c: RawChunk)
    requires w.core.state.Closed? && (c.messageType.MSG? || c.messageType.CLO? || c.messageType.OPN?)
    ensures !ProcessChunk(env, w, c).status.Good? && ProcessChunk(env, w, c).work == w
    ensures ProcessChunk(env, w, c).delivered == [] && !ProcessChunk(env, w, c).closed
  {
    hide DecodeU32;
  }

  /** From the chunk that finds the token expired on, whatever is fed to the channel, it delivers
      nothing more and stays closed, as long as only chunks of secured messages come. */
  lemma {:induction false} ExpiredForGood(env: Env, w: Work, queues: seq<seq<RawChunk>>)
    requires w.core.state.Closed?
    requires forall i, j :: 0 <= i < |queues| && 0 <= j < |queues[i]| ==>
               var m := queues[i][j].messageType; m.MSG? || m.CLO? || m.OPN?
    ensures ProcessQueues(env, w, queues) == (w, [])
    decreases |queues|
  {
    hide ProcessChunk;
    if queues != [] {
      var q := queues[0];
      if q != [] {
        assert queues[0][0] == q[0];
        ClosedRefuses(env, w, q[0]);
      }
      var p := ProcessChunks(env, w, q);
      assert p.work == w && p.delivered == [];
      assert p.delivered + ProcessQueues(env, w, queues[1..]).1 == ProcessQueues(env, w, queues[1..]).1;
      assert forall i, j :: 0 <= i < |queues[1..]| && 0 <= j < |queues[1..][i]| ==> queues[1..][i][j] == queues[i + 1][j];
      ExpiredForGood(env, w, queues[1..]);
    }
  }

  /** The state after queues of chunks processed one after the other, errors or not, and all that was
      delivered. */
  function ProcessQueues(env: Env, w: Work, queues: seq<seq<RawChunk>>): (Work, seq<Message>)
    decreases |queues|
  {
    if queues == [] then (w, [])
    else
      var p := ProcessChunks(env, w, queues[0]);
      var (w', ms) := ProcessQueues(env, p.work, queues[1..]);
      (w', p.delivered + ms)
  }
}
