/**
  The Raft message helpers of raft_message.h: the message types, the
  message record, its two constructors for thread-internal messages and
  the two classifications of a message type.

  `SyncTerm` and `SyncNodeId` are declared in sync_type.h, which is not
  part of this model, so both are unbounded integers here. The buffer and
  data pointers of a proposal are only copied, so they are opaque handles.
 */
module RaftMessage {

  /** `RaftMessageType`, with the numbering of the C enum. */
  datatype RaftMessageType =
    | InternalProp      // RAFT_MSG_INTERNAL_PROP = 1
    | InternalElection  // RAFT_MSG_INTERNAL_ELECTION = 2
    | Vote              // RAFT_MSG_VOTE = 3
    | VoteResp          // RAFT_MSG_VOTE_RESP = 4
    | PreVote           // RAFT_MSG_PRE_VOTE = 5
    | PreVoteResp       // RAFT_MSG_PRE_VOTE_RESP = 6

  function Code(t: RaftMessageType): (c: int)
    ensures 1 <= c <= 6
  {
    match t
    case InternalProp => 1
    case InternalElection => 2
    case Vote => 3
    case VoteResp => 4
    case PreVote => 5
    case PreVoteResp => 6
  }

  /** The enum's values are distinct. */
  lemma CodeInjective(a: RaftMessageType, b: RaftMessageType)
    ensures Code(a) == Code(b) <==> a == b
  {
  }

  /** An opaque pointer (`const SSyncBuffer*`, `void*`). */
  type Handle = nat

  /** The union of `SSyncMessage`: which arm is set is part of the value. */
  datatype MessageBody =
    | Propose(pBuf: Handle, isWeak: bool, pData: Handle)
    | Election
    | PreVoteRespBody(reject: bool)

  datatype SyncMessage = SyncMessage(msgType: RaftMessageType, term: int, from: int, to: int, body: MessageBody)

  /** `syncInitPropMsg`: a compound literal, so every member not named is
      zero. */
  function InitPropMsg(pBuf: Handle, pData: Handle, isWeak: bool): (m: SyncMessage)
    ensures m.msgType == InternalProp && m.term == 0 && m.from == 0 && m.to == 0
    ensures m.body == Propose(pBuf, isWeak, pData)
  {
    SyncMessage(InternalProp, 0, 0, 0, Propose(pBuf, isWeak, pData))
  }

  /** `syncInitElectionMsg`. */
  function InitElectionMsg(from: int): (m: SyncMessage)
    ensures m.msgType == InternalElection && m.term == 0 && m.from == from && m.to == 0
    ensures m.body == Election
  {
    SyncMessage(InternalElection, 0, from, 0, Election)
  }

  /** `syncIsInternalMsg`. */
  function IsInternalMsg(t: RaftMessageType): (b: bool)
    ensures b <==> Code(t) <= 2
  {
    t == InternalProp || t == InternalElection
  }

  /** Only the two thread-internal types are internal; the four vote types
      are not. */
  lemma InternalExactly(t: RaftMessageType)
    ensures IsInternalMsg(t) <==> t in {InternalProp, InternalElection}
    ensures t in {Vote, VoteResp, PreVote, PreVoteResp} ==> !IsInternalMsg(t)
  {
  }

  /** Every message either constructor builds is internal. */
  lemma ConstructedAreInternal(pBuf: Handle, pData: Handle, isWeak: bool, from: int)
    ensures IsInternalMsg(InitPropMsg(pBuf, pData, isWeak).msgType)
    ensures IsInternalMsg(InitElectionMsg(from).msgType)
  {
  }

  /** `SyncRaftVoteRespMsgType` as written: both of its paths answer
      `RAFT_MSG_PRE_VOTE_RESP`. */
  function VoteRespMsgTypeAsWritten(t: RaftMessageType): (r: RaftMessageType)
    ensures r == PreVoteResp
  {
    if t == Vote then PreVoteResp else PreVoteResp
  }

  /** A vote is answered with a pre-vote response by the code as written. */
  lemma VoteAnsweredAsPreVote()
    ensures VoteRespMsgTypeAsWritten(Vote) == PreVoteResp
    ensures VoteRespMsgTypeAsWritten(Vote) != VoteResp
  {
  }

  /** `SyncRaftVoteRespMsgType` as its test for `RAFT_MSG_VOTE` evidently
      means it: a vote is answered with a vote response, anything else with
      a pre-vote response. */
  function VoteRespMsgType(t: RaftMessageType): (r: RaftMessageType)
    ensures r == VoteResp <==> t == Vote
    ensures r == PreVoteResp <==> t != Vote
  {
    if t == Vote then VoteResp else PreVoteResp
  }

  /** The response type is never internal, and the two definitions agree on
      every type but `RAFT_MSG_VOTE`. */
  lemma VoteRespAgreement(t: RaftMessageType)
    ensures !IsInternalMsg(VoteRespMsgType(t)) && !IsInternalMsg(VoteRespMsgTypeAsWritten(t))
    ensures VoteRespMsgType(t) == VoteRespMsgTypeAsWritten(t) <==> t != Vote
  {
  }
}
