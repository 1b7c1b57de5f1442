/**
 * Clique's rule that a signer may sign only one out of every floor(n/2) + 1 consecutive blocks
 * (EIP-225), on a chain that is extended block by block under a fixed set of n signers
 * (packages/blockchain/src/index.ts). Only a trimmed window of signers is kept.
 */
module CliqueSigners {
  import opened ByteStrings
  import opened FiniteSets

  type Address = Bytes
  datatype BlockSigner = BlockSigner(number: nat, signer: Address)

  datatype SignError = NotASigner | RecentlySigned

  function SignerLimit(signers: set<Address>): nat {
    |signers| / 2 + 1
  }

  /** The signers of blocks 1, 2, ... with their numbers. */
  ghost function Numbered(history: seq<Address>): (r: seq<BlockSigner>)
    ensures |r| == |history| && forall i :: 0 <= i < |r| ==> r[i] == BlockSigner(i + 1, history[i])
  {
    seq(|history|, i requires 0 <= i < |history| => BlockSigner(i + 1, history[i]))
  }

  function LastOf<T>(s: seq<T>, n: nat): seq<T> {
    if |s| <= n then s else s[|s| - n..]
  }

  function Filter(window: seq<BlockSigner>, signer: Address): seq<BlockSigner> {
    if window == [] then []
    else (if window[0].signer == signer then [window[0]] else []) + Filter(window[1..], signer)
  }

  lemma {:induction false} FilterEmpty(window: seq<BlockSigner>, signer: Address)
    ensures Filter(window, signer) != [] <==> exists b :: b in window && b.signer == signer
  {
    if window != [] { FilterEmpty(window[1..], signer); }
  }

  lemma {:induction false} FilterPush(window: seq<BlockSigner>, b: BlockSigner, signer: Address)
    ensures Filter(window + [b], signer) == Filter(window, signer) + if b.signer == signer then [b] else []
  {
    if window == [] {
      assert window + [b] == [b];
    } else {
      FilterPush(window[1..], b, signer);
      assert (window + [b])[1..] == window[1..] + [b];
    }
  }

  /** The window without its oldest entry, when full, is one entry shorter than the limit. */
  lemma WindowShortened(history: seq<Address>, limit: nat)
    requires limit > 0
    ensures var full := LastOf(Numbered(history), limit);
      (if |full| < limit then full else full[1..]) == LastOf(Numbered(history), limit - 1)
  {}

  lemma RecentSigners(history: seq<Address>, n: nat, signer: Address)
    ensures var window := LastOf(Numbered(history), n);
      && (window != [] ==> window[|window| - 1].number == |history|)
      && ((exists b :: b in window && b.signer == signer) <==> signer in LastOf(history, n))
      && (signer in LastOf(history, n) ==> |history| > 0)
  {
    var window, recent := LastOf(Numbered(history), n), LastOf(history, n);
    forall i | 0 <= i < |recent| ensures window[i].signer == recent[i] {}
    if signer in recent {
      var i :| 0 <= i < |recent| && recent[i] == signer;
      assert window[i] in window;
    }
  }

  lemma NotRecent(history: seq<Address>, n: nat, signer: Address, i: nat)
    requires signer !in LastOf(history, n) && i < |history| && |history| - i <= n
    ensures history[i] != signer
  {
    var recent := LastOf(history, n);
    assert recent[i - (|history| - |recent|)] == history[i];
  }

  lemma LimitPositive(signers: set<Address>)
    ensures SignerLimit(signers) > 0
  {}

  lemma WindowMoves(history: seq<Address>, limit: nat, signer: Address)
    requires limit > 0
    ensures LastOf(LastOf(Numbered(history), limit) + [BlockSigner(|history| + 1, signer)], limit) ==
            LastOf(Numbered(history + [signer]), limit)
  {
    NumberedPush(history, signer);
    hide Numbered;
    LastMoves(Numbered(history), limit, BlockSigner(|history| + 1, signer));
  }

  lemma NumberedPush(history: seq<Address>, signer: Address)
    ensures Numbered(history + [signer]) == Numbered(history) + [BlockSigner(|history| + 1, signer)]
  {}

  lemma LastMoves<T>(s: seq<T>, limit: nat, x: T)
    requires limit > 0
    ensures LastOf(LastOf(s, limit) + [x], limit) == LastOf(s + [x], limit)
  {}

  /** Some signer is always free to sign next: the rule never stops the chain. */
  lemma SomeoneMaySign(signers: set<Address>, history: seq<Address>)
    requires signers != {}
    ensures exists s :: MaySign(signers, history, s)
  {
    var recent := LastOf(history, SignerLimit(signers) - 1);
    var blocked := set s | s in recent;
    FewBlocked(recent);
    if signers <= blocked { SubsetSize(signers, blocked); }
    var s :| s in signers && s !in blocked;
    assert MaySign(signers, history, s);
  }

  lemma {:induction false} FewBlocked(recent: seq<Address>)
    ensures |set s | s in recent| <= |recent|
  {
    if recent != [] {
      FewBlocked(recent[1..]);
      assert (set s | s in recent) == {recent[0]} + (set s | s in recent[1..]);
    }
  }

  /** The rule: an authorized signer that signed none of the floor(n/2) blocks before. */
  predicate MaySign(signers: set<Address>, history: seq<Address>, signer: Address) {
    signer in signers && signer !in LastOf(history, SignerLimit(signers) - 1)
  }

  /** The rule, with the limit written out. */
  lemma MaySignIff(signers: set<Address>, history: seq<Address>, signer: Address)
    ensures MaySign(signers, history, signer) <==>
            && signer in signers
            && forall i :: 0 <= i < |history| && |history| - |signers| / 2 <= i ==> history[i] != signer
  {
    var recent := LastOf(history, |signers| / 2);
    forall i | 0 <= i < |recent| ensures recent[i] == history[|history| - |recent| + i] {}
    if signer !in recent {
      forall i | 0 <= i < |history| && |history| - |signers| / 2 <= i ensures history[i] != signer {
        NotRecent(history, |signers| / 2, signer, i);
      }
    }
  }

  /** The signers accepted out of a run of submitted blocks: each that may sign after those before it. */
  function Accepted(signers: set<Address>, signed: seq<Address>): seq<Address> {
    if signed == [] then []
    else
      var before, signer := Accepted(signers, signed[..|signed| - 1]), signed[|signed| - 1];
      if MaySign(signers, before, signer) then before + [signer] else before
  }

  class CliqueChain {
    const signers: set<Address>
    var latestBlockSigners: seq<BlockSigner>
    ghost var history: seq<Address>

    /** The window holds exactly the most recent signers. */
    ghost predicate Valid()
      reads this
    {
      && latestBlockSigners == LastOf(Numbered(history), SignerLimit(signers))
      && (forall i :: 0 <= i < |history| ==> history[i] in signers)
      && (forall i, j :: 0 <= i < j < |history| && j - i < SignerLimit(signers) ==> history[i] != history[j])
    }

    constructor (signers: set<Address>)
      ensures Valid() && history == [] && this.signers == signers
    {
      this.signers := signers;
      latestBlockSigners := [];
      history := [];
    }

    /** `cliqueCheckRecentlySigned`, in any state: with an incomplete window it never objects. */
    method CheckRecentlySigned(number: nat, signer: Address) returns (recently: bool)
      ensures var limit := |signers| / 2 + 1;
        var window := if |latestBlockSigners| < limit then latestBlockSigners else latestBlockSigners[1..];
        recently <==> && number > 1
                      && (window != [] ==> window[|window| - 1].number == number - 1)
                      && exists b :: b in window && b.signer == signer
    {
      if number == 0 || number == 1 {
        return false;
      }
      var limit := SignerLimit(signers);
      var window := latestBlockSigners;
      window := if |window| < limit then window else window[1..];
      if |window| > 0 && window[|window| - 1].number != number - 1 {
        return false;
      }
      FilterPush(window, BlockSigner(number, signer), signer);
      FilterEmpty(window, signer);
      window := window + [BlockSigner(number, signer)];
      var seen := |Filter(window, signer)|;
      return seen > 1;
    }

    method UpdateLatestBlockSigners(number: nat, signer: Address)
      requires number > 0
      modifies this`latestBlockSigners
      ensures latestBlockSigners ==
                LastOf(old(latestBlockSigners) + [BlockSigner(number, signer)], |signers| / 2 + 1)
    {
      latestBlockSigners := latestBlockSigners + [BlockSigner(number, signer)];
      var length, limit := |latestBlockSigners|, SignerLimit(signers);
      if length > limit {
        latestBlockSigners := latestBlockSigners[length - limit..length];
      }
    }

    /** The next block is accepted exactly when an authorized signer signed it that signed none of
        the floor(n/2) blocks before. */
    method ExtendChain(number: nat, signer: Address) returns (r: Result<(), SignError>)
      requires Valid() && number == |history| + 1
      modifies this
      ensures Valid()
      ensures r.Ok? <==> MaySign(signers, old(history), signer)
      ensures r.Ok? <==>
              && signer in signers
              && forall i :: 0 <= i < |old(history)| && |old(history)| - |signers| / 2 <= i ==>
                   old(history)[i] != signer
      ensures history == if r.Ok? then old(history) + [signer] else old(history)
    {
      MaySignIff(signers, history, signer);
      hide LastOf;
      LimitPositive(signers);
      if signer !in signers {
        return Err(NotASigner);
      }
      var recently := CheckRecentlySigned(number, signer);
      WindowShortened(history, SignerLimit(signers));
      RecentSigners(history, SignerLimit(signers) - 1, signer);
      if recently {
        return Err(RecentlySigned);
      }
      WindowMoves(history, SignerLimit(signers), signer);
      forall i | 0 <= i < |history| && |history| - i < SignerLimit(signers) ensures history[i] != signer {
        NotRecent(history, SignerLimit(signers) - 1, signer, i);
      }
      UpdateLatestBlockSigners(number, signer);
      history := history + [signer];
      return Ok(());
    }
  }

  /** A run of signed blocks, each numbered one above the last accepted one. */
  method SignAll(chain: CliqueChain, signed: seq<Address>) returns (accepted: seq<Address>)
    requires chain.Valid() && chain.history == []
    modifies chain
    ensures chain.Valid() && chain.history == accepted == Accepted(chain.signers, signed)
    ensures forall i, j :: 0 <= i < j < |accepted| && j - i <= |chain.signers| / 2 ==> accepted[i] != accepted[j]
  {
    accepted := [];
    for i := 0 to |signed|
      invariant chain.Valid() && chain.history == accepted == Accepted(chain.signers, signed[..i])
    {
      assert signed[..i + 1][..i] == signed[..i];
      var r := chain.ExtendChain(|accepted| + 1, signed[i]);
      if r.Ok? {
        accepted := accepted + [signed[i]];
      }
    }
    assert signed[..|signed|] == signed;
  }
}
