/**
 * `safe_reply` (bot.py, lines 1212-1252): a reply longer than Discord's 2000-character limit
 * is sent in pieces, each cut just after the last blank line, line break or space found in
 * the first 2000 characters, or after 2001 characters when there is none. Before each send
 * the bot re-checks its permission to post and stops at the first refusal. Each send appends
 * to the output sequence; the permission checks are given as the number that pass.
 */
module Reply {
  import opened Base

  /** Discord's message length limit. */
  const MaxMessageLen: nat := 2000

  /** Where to cut, in order of preference. */
  const SplitStrs: seq<string> := ["\n\n", "\n", " "]

  /** The cut used when no separator is found, as written: one past the limit. */
  const HardCut: nat := MaxMessageLen + 1

  /** `sub` occurs in `s` starting at `j`. */
  predicate MatchAt(s: string, sub: string, j: int) {
    0 <= j && j + |sub| <= |s| && s[j..j + |sub|] == sub
  }

  /** The last start at or before `hi` where `sub` occurs, or -1. */
  function LastMatch(s: string, sub: string, hi: int): (r: int)
    ensures r == -1 || (0 <= r <= hi && MatchAt(s, sub, r))
    ensures forall j :: r < j <= hi ==> !MatchAt(s, sub, j)
    decreases hi + 1
  {
    if hi < 0 then -1
    else if MatchAt(s, sub, hi) then hi
    else LastMatch(s, sub, hi - 1)
  }

  /**
   * `s.rfind(sub, 0, end)`: the last occurrence lying wholly inside `s[..end]`, or -1 when
   * there is none.
   */
  function RFind(s: string, sub: string, end: nat): (r: int)
    ensures r == -1 || (0 <= r && r + |sub| <= Min(end, |s|) && MatchAt(s, sub, r))
    ensures forall j :: r < j && j + |sub| <= Min(end, |s|) ==> !MatchAt(s, sub, j)
  {
    MatchInPrefix(s, sub, Min(end, |s|));
    LastMatch(s[..Min(end, |s|)], sub, Min(end, |s|) - |sub|)
  }

  /** An occurrence inside a prefix is an occurrence in the whole string, and back. */
  lemma MatchInPrefix(s: string, sub: string, limit: nat)
    requires limit <= |s|
    ensures forall j :: j + |sub| <= limit ==> (MatchAt(s[..limit], sub, j) <==> MatchAt(s, sub, j))
  {
    forall j | j + |sub| <= limit
      ensures MatchAt(s[..limit], sub, j) <==> MatchAt(s, sub, j)
    {
      if 0 <= j {
        assert s[..limit][j..j + |sub|] == s[j..j + |sub|];
      }
    }
  }

  /** The separators from the `i`-th on: the first one found decides the cut. */
  function SplitFrom(reply: string, i: nat, hardCut: nat): (k: int)
    requires i <= |SplitStrs|
    requires 1 <= hardCut
    ensures 1 <= k && (k <= MaxMessageLen || k == hardCut)
    decreases |SplitStrs| - i
  {
    if i == |SplitStrs| then hardCut
    else
      var found := RFind(reply, SplitStrs[i], MaxMessageLen);
      if found != -1 then found + 1 else SplitFrom(reply, i + 1, hardCut)
  }

  /** The split index `safe_reply` computes for a reply that is still too long. */
  function SplitIndex(reply: string, hardCut: nat): (k: int)
    requires 1 <= hardCut
    ensures 1 <= k && (k <= MaxMessageLen || k == hardCut)
  {
    SplitFrom(reply, 0, hardCut)
  }

  /** The `for i in range(len(split_strs) + 1)` loop: try each separator, else the hard cut. */
  method ChooseSplit(reply: string, hardCut: nat) returns (splitIndex: int)
    requires 1 <= hardCut
    ensures splitIndex == SplitIndex(reply, hardCut)
  {
    var i := 0;
    while i < |SplitStrs|
      invariant 0 <= i <= |SplitStrs|
      invariant SplitFrom(reply, i, hardCut) == SplitIndex(reply, hardCut)
    {
      splitIndex := RFind(reply, SplitStrs[i], MaxMessageLen);
      if splitIndex != -1 {
        splitIndex := splitIndex + 1;
        return;
      }
      i := i + 1;
    }
    splitIndex := hardCut;
  }

  /** A line break or space somewhere in the first `MaxMessageLen` characters. */
  predicate HasBreak(reply: string) {
    exists j :: 0 <= j < Min(|reply|, MaxMessageLen) && (reply[j] == '\n' || reply[j] == ' ')
  }

  /** The hard cut is taken exactly when the first 2000 characters hold no line break or space. */
  lemma HardCutWhenNoBreak(reply: string, hardCut: nat)
    requires MaxMessageLen < hardCut
    ensures SplitIndex(reply, hardCut) == hardCut <==> !HasBreak(reply)
  {
    var limit := Min(|reply|, MaxMessageLen);
    if HasBreak(reply) {
      var j :| 0 <= j < limit && (reply[j] == '\n' || reply[j] == ' ');
      assert MatchAt(reply, [reply[j]], j);
      if reply[j] == '\n' {
        assert MatchAt(reply, SplitStrs[1], j);
        if RFind(reply, SplitStrs[0], MaxMessageLen) == -1 {
          assert RFind(reply, SplitStrs[1], MaxMessageLen) != -1;
        }
      } else {
        assert MatchAt(reply, SplitStrs[2], j);
        if RFind(reply, SplitStrs[0], MaxMessageLen) == -1 && RFind(reply, SplitStrs[1], MaxMessageLen) == -1 {
          assert RFind(reply, SplitStrs[2], MaxMessageLen) != -1;
        }
      }
    } else {
      NoMatchWithoutBreak(reply, SplitStrs[0]);
      NoMatchWithoutBreak(reply, SplitStrs[1]);
      NoMatchWithoutBreak(reply, SplitStrs[2]);
    }
  }

  lemma NoMatchWithoutBreak(reply: string, sub: string)
    requires !HasBreak(reply)
    requires |sub| > 0 && (sub[0] == '\n' || sub[0] == ' ')
    ensures RFind(reply, sub, MaxMessageLen) == -1
  {
  }

  /** The pieces `safe_reply` sends, in order; the last is what is left once it fits. */
  function Pieces(reply: string, hardCut: nat): (ps: seq<string>)
    requires 1 <= hardCut <= MaxMessageLen + 1
    ensures |ps| >= 1
    ensures |ps| == 1 <==> |reply| <= MaxMessageLen
    decreases |reply|
  {
    if |reply| > MaxMessageLen then
      var k := SplitIndex(reply, hardCut);
      [reply[..k]] + Pieces(reply[k..], hardCut)
    else [reply]
  }

  function Concat(ps: seq<string>): string {
    if |ps| == 0 then [] else ps[0] + Concat(ps[1..])
  }

  /** Sending every piece sends the reply: the pieces concatenate back to it. */
  lemma {:induction false} PiecesConcat(reply: string, hardCut: nat)
    requires 1 <= hardCut <= MaxMessageLen + 1
    ensures Concat(Pieces(reply, hardCut)) == reply
    decreases |reply|
  {
    if |reply| > MaxMessageLen {
      var k := SplitIndex(reply, hardCut);
      var ps, tail := Pieces(reply, hardCut), Pieces(reply[k..], hardCut);
      PiecesConcat(reply[k..], hardCut);
      assert ps[0] == reply[..k] && ps[1..] == tail;
      assert Concat(ps) == reply[..k] + Concat(tail);
      assert reply[..k] + reply[k..] == reply;
    }
  }

  /**
   * Every piece fits in one message except a piece cut at the hard cut, which has exactly
   * `hardCut` characters.
   */
  lemma {:induction false} PiecesWithin(reply: string, hardCut: nat)
    requires 1 <= hardCut <= MaxMessageLen + 1
    ensures forall i :: 0 <= i < |Pieces(reply, hardCut)| ==>
              |Pieces(reply, hardCut)[i]| <= MaxMessageLen || |Pieces(reply, hardCut)[i]| == hardCut
    decreases |reply|
  {
    if |reply| > MaxMessageLen {
      var k := SplitIndex(reply, hardCut);
      PiecesWithin(reply[k..], hardCut);
      assert Pieces(reply, hardCut)[1..] == Pieces(reply[k..], hardCut);
    }
  }

  /** Finding: with no line break or space in reach, the first piece is one over the limit. */
  lemma HardCutOverLimit(reply: string)
    requires |reply| > MaxMessageLen && !HasBreak(reply)
    ensures |Pieces(reply, HardCut)[0]| == MaxMessageLen + 1
  {
    HardCutWhenNoBreak(reply, HardCut);
  }

  /** Finding, on a concrete reply: 2001 letters go out as one 2001-character message. */
  lemma HardCutExample()
    ensures var reply := seq(2001, i => 'a');
            |Pieces(reply, HardCut)[0]| == 2001 > MaxMessageLen
  {
    var reply := seq(2001, i => 'a');
    assert !HasBreak(reply) by {
      forall j | 0 <= j < Min(|reply|, MaxMessageLen) ensures reply[j] == 'a' {
      }
    }
    HardCutOverLimit(reply);
  }

  /** The intended cut at the limit itself: then every piece fits in one message. */
  lemma PiecesFitCorrected(reply: string)
    ensures forall i :: 0 <= i < |Pieces(reply, MaxMessageLen)| ==> |Pieces(reply, MaxMessageLen)[i]| <= MaxMessageLen
    ensures Concat(Pieces(reply, MaxMessageLen)) == reply
  {
    PiecesWithin(reply, MaxMessageLen);
    PiecesConcat(reply, MaxMessageLen);
  }

  /**
   * `safe_reply` with the hard cut given: `granted` is the number of permission checks that
   * pass before the first refusal. A refused first check reacts with a cross; otherwise the
   * pieces go out in order until a check fails, and all of them when none does.
   */
  method SafeReply(reply: string, granted: nat, hardCut: nat) returns (sent: seq<string>, reactedX: bool)
    requires 1 <= hardCut <= MaxMessageLen + 1
    ensures reactedX <==> granted == 0
    ensures var ps := Pieces(reply, hardCut);
            sent == if granted == 0 then [] else ps[..Min(|ps|, granted - 1)]
    ensures granted > |Pieces(reply, hardCut)| ==> Concat(sent) == reply
  {
    PiecesConcat(reply, hardCut);
    if granted == 0 {
      return [], true;
    }
    reactedX := false;
    var rest := reply;
    var passed := 1;
    sent := [];
    while |rest| > MaxMessageLen
      invariant Pieces(reply, hardCut) == sent + Pieces(rest, hardCut)
      invariant passed == |sent| + 1 <= granted
      decreases |rest|
    {
      var splitIndex := ChooseSplit(rest, hardCut);
      if passed == granted {
        assert Pieces(reply, hardCut)[..|sent|] == sent;
        return;
      }
      sent := sent + [rest[..splitIndex]];
      passed := passed + 1;
      rest := rest[splitIndex..];
    }
    if passed < granted {
      sent := sent + [rest];
    } else {
      assert Pieces(reply, hardCut)[..|sent|] == sent;
    }
  }

  /** `safe_reply` as written: the hard cut is one past the limit. */
  method SafeReplyAsWritten(reply: string, granted: nat) returns (sent: seq<string>, reactedX: bool)
    ensures reactedX <==> granted == 0
    ensures var ps := Pieces(reply, HardCut);
            sent == if granted == 0 then [] else ps[..Min(|ps|, granted - 1)]
  {
    sent, reactedX := SafeReply(reply, granted, HardCut);
  }
}
