/** The proof retainer: which nodes of a trie are kept, decided node by node in post-order from
    the targets, the added and removed keys, and the last branch and last untargeted node seen. */
module Retention {
  import opened Primitives
  import opened HexPrefixes
  import opened Masks
  import opened Tries
  import opened Traversal

  // ----- Added and removed keys -----

  datatype AddedRemovedKeys = AddedRemovedKeys(removed: set<Word>, added: set<Word>, assumeAdded: bool)
  {
    predicate IsPrefixAdded(prefix: Nibbles) {
      assumeAdded || exists w | w in added :: prefix <= Unpack(w)
    }

    /** Some removed key lies at or below the path. */
    predicate HasRemoved(path: Nibbles) {
      exists w | w in removed :: path <= Unpack(w)
    }

    /** The children of a path that lead to a removed key. */
    function RemovedMask(branchPath: Nibbles): (mask: Mask) {
      set x: Nibble | HasRemoved(branchPath + [x])
    }

    /** `get_removed_mask`: one pass over the removed keys.  A key has 64 nibbles and is read at
        position |branchPath|, which must lie inside it. */
    method GetRemovedMask(branchPath: Nibbles) returns (mask: Mask)
      requires |branchPath| < 64
      ensures forall x: Nibble :: x in mask <==> LeadsTo(removed, branchPath + [x])
      ensures mask == RemovedMask(branchPath)
    {
      hide LeadsTo;
      mask := {};
      var rest := removed;
      assert removed - rest == {};
      NoneLeads(branchPath);
      while rest != {}
        invariant rest <= removed
        invariant forall x: Nibble :: x in mask <==> LeadsTo(removed - rest, branchPath + [x])
        decreases rest
      {
        var w :| w in rest;
        var key := Unpack(w);
        UnpackLength(w);
        forall x: Nibble
          ensures LeadsTo(removed - (rest - {w}), branchPath + [x]) <==>
                  LeadsTo(removed - rest, branchPath + [x]) || (branchPath <= key && x == key[|branchPath|])
        {
          assert removed - (rest - {w}) == (removed - rest) + {w};
          LeadsToMore(removed - rest, w, branchPath + [x]);
          NextNibble(branchPath, key, x);
        }
        if branchPath <= key {
          mask := mask + {key[|branchPath|]};
        }
        rest := rest - {w};
      }
      assert removed - rest == removed;
      RemovedMaskLeads(branchPath);
    }

    lemma RemovedMaskLeads(branchPath: Nibbles)
      ensures forall x: Nibble :: x in RemovedMask(branchPath) <==> LeadsTo(removed, branchPath + [x])
    {
    }
  }

  /** Some key of the set lies at or below the path. */
  ghost predicate LeadsTo(keys: set<Word>, p: Nibbles) {
    exists w :: w in keys && p <= Unpack(w)
  }

  lemma NoneLeads(p: Nibbles)
    ensures forall x: Nibble :: !LeadsTo({}, p + [x])
  {
  }

  lemma LeadsToMore(keys: set<Word>, w: Word, p: Nibbles)
    ensures LeadsTo(keys + {w}, p) <==> LeadsTo(keys, p) || p <= Unpack(w)
  {
    assert w in keys + {w};
  }

  lemma NextNibble(p: Nibbles, key: Nibbles, x: Nibble)
    requires |p| < |key|
    ensures p + [x] <= key <==> p <= key && x == key[|p|]
  {
  }

  // ----- The retainer's state machine -----

  datatype Config = Config(targets: seq<Nibbles>, keys: Option<AddedRemovedKeys>)
  {
    predicate Matches(prefix: Nibbles) {
      prefix == [] || exists t | t in targets :: prefix <= t
    }
  }

  type ProofNodes = map<Nibbles, Bytes>

  datatype Tracking = Tracking(
    lastBranchPath: Nibbles,
    lastBranchProof: Bytes,
    lastNontargetPath: Nibbles,
    lastNontargetProof: Bytes)
  {
    /** The last untargeted node is the child of the extension. */
    predicate ExtensionChildIsNontarget(path: Nibbles, short: Nibbles) {
      && |path| + |short| == |lastNontargetPath|
      && path <= lastNontargetPath
      && short == lastNontargetPath[|lastNontargetPath| - |short|..]
    }

    /** The last untargeted node is the branch's child at the nibble. */
    predicate BranchChildIsNontarget(path: Nibbles, nibble: nat) {
      && |path| + 1 == |lastNontargetPath|
      && path <= lastNontargetPath
      && lastNontargetPath[|lastNontargetPath| - 1] == nibble
    }
  }

  const NOTHING_SEEN := Tracking([], [], [], [])

  datatype State = State(nodes: ProofNodes, tracking: Tracking)

  const NOTHING_RETAINED := State(map[], NOTHING_SEEN)

  /** The lowest nibble of a mask, or 16 (`trailing_zeros`). */
  function Lowest(mask: Mask, from: nat): (x: nat)
    requires from <= 16
    ensures from <= x <= 16 && (x < 16 ==> x in mask)
    ensures forall y: Nibble | from <= y < x :: y !in mask
    decreases 16 - from
  {
    if from == 16 || from in mask then from else Lowest(mask, from + 1)
  }

  /** An untargeted node is remembered unless it leads to a removed key. */
  function MaybeTrack(cfg: Config, st: State, path: Nibbles, proof: Bytes): (r: State) {
    if cfg.keys.None? || path == [] then st
    else if path[|path| - 1] in cfg.keys.value.RemovedMask(path[..|path| - 1]) then st
    else st.(tracking := st.tracking.(lastNontargetPath := path, lastNontargetProof := proof))
  }

  function OnLeaf(cfg: Config, st: State, path: Nibbles, proof: Bytes): (r: State) {
    if cfg.Matches(path) then st.(nodes := st.nodes[path := proof])
    else MaybeTrack(cfg, st, path, proof)
  }

  function OnExtension(cfg: Config, st: State, path: Nibbles, short: Nibbles, proof: Bytes): (r: State) {
    if cfg.Matches(path) then
      var nodes := st.nodes[path := proof];
      if cfg.keys.Some? && cfg.keys.value.IsPrefixAdded(path) &&
         st.tracking.ExtensionChildIsNontarget(path, short)
      then st.(nodes := nodes[st.tracking.lastBranchPath := st.tracking.lastBranchProof])
      else st.(nodes := nodes)
    else MaybeTrack(cfg, st, path, proof)
  }

  /** The children of a branch that lead to no removed key. */
  function Surviving(keys: AddedRemovedKeys, path: Nibbles, mask: Mask): (r: Mask) {
    mask - keys.RemovedMask(path)
  }

  function OnBranch(cfg: Config, st: State, path: Nibbles, mask: Mask, proof: Bytes): (r: State) {
    var st1 :=
      if cfg.Matches(path) then
        var nodes := st.nodes[path := proof];
        if cfg.keys.Some? &&
           |Surviving(cfg.keys.value, path, mask)| == 1 &&
           st.tracking.BranchChildIsNontarget(path, Lowest(Surviving(cfg.keys.value, path, mask), 0))
        then st.(nodes := nodes[st.tracking.lastNontargetPath := st.tracking.lastNontargetProof])
        else st.(nodes := nodes)
      else MaybeTrack(cfg, st, path, proof);
    if cfg.keys.Some? then
      st1.(tracking := st1.tracking.(lastBranchPath := path, lastBranchProof := proof))
    else st1
  }

  /** What the retainer does when a node of the trie is finished. */
  function OnNode(cfg: Config, st: State, item: Placed): (r: State) {
    match item.node
    case Leaf(_, _) => OnLeaf(cfg, st, item.path, Encode(item.node))
    case Ext(short, _) => OnExtension(cfg, st, item.path, short, Encode(item.node))
    case Branch(ch) =>
      if |ch| == 16 then OnBranch(cfg, st, item.path, StateMask(item.node), Encode(item.node)) else st
    case _ => st
  }

  function RunFrom(cfg: Config, st: State, items: seq<Placed>): (r: State) {
    if items == [] then st
    else OnNode(cfg, RunFrom(cfg, st, items[..|items| - 1]), items[|items| - 1])
  }

  function Run(cfg: Config, items: seq<Placed>): (r: State) {
    RunFrom(cfg, NOTHING_RETAINED, items)
  }

  // ----- The retainer -----

  class ProofRetainer {
    var targets: seq<Nibbles>
    var proofNodes: ProofNodes
    var addedRemovedKeys: Option<AddedRemovedKeys>
    var tracking: Tracking

    ghost function Cfg(): Config
      reads this
    {
      Config(targets, addedRemovedKeys)
    }

    ghost function View(): State
      reads this
    {
      State(proofNodes, tracking)
    }

    constructor (targets: seq<Nibbles>, keys: Option<AddedRemovedKeys>)
      ensures Cfg() == Config(targets, keys) && View() == NOTHING_RETAINED
    {
      this.targets := targets;
      proofNodes := map[];
      addedRemovedKeys := keys;
      tracking := NOTHING_SEEN;
    }

    method Matches(prefix: Nibbles) returns (r: bool)
      ensures r == Cfg().Matches(prefix)
    {
      r := prefix == [];
      var i := 0;
      while !r && i < |targets|
        invariant i <= |targets|
        invariant r ==> Cfg().Matches(prefix)
        invariant !r ==> prefix != [] && forall j | 0 <= j < i :: !(prefix <= targets[j])
      {
        assert targets[i] in targets;
        r := prefix <= targets[i];
        i := i + 1;
      }
    }

    method RetainUnchecked(path: Nibbles, proof: Bytes)
      modifies this`proofNodes
      ensures View() == old(View()).(nodes := old(proofNodes)[path := proof])
    {
      proofNodes := proofNodes[path := proof];
    }

    method RetainEmptyRootProof()
      modifies this`proofNodes
      ensures View() == old(View()).(nodes := old(proofNodes)[[] := [EMPTY_STRING_CODE]])
    {
      RetainUnchecked([], [EMPTY_STRING_CODE]);
    }

    method MaybeTrackNontarget(path: Nibbles, proof: Bytes)
      requires addedRemovedKeys.Some? ==> |path| <= 64
      modifies this`tracking
      ensures View() == MaybeTrack(Cfg(), old(View()), path, proof)
    {
      if addedRemovedKeys.Some? {
        if path == [] {
          return;
        }
        var branchPath := path[..|path| - 1];
        var childBit := path[|path| - 1];
        var removedMask := addedRemovedKeys.value.GetRemovedMask(branchPath);
        if childBit !in removedMask {
          tracking := tracking.(lastNontargetPath := path, lastNontargetProof := proof);
        }
      }
    }

    method RetainLeafProof(path: Nibbles, proof: Bytes)
      requires addedRemovedKeys.Some? ==> |path| <= 64
      modifies this`proofNodes, this`tracking
      ensures View() == OnLeaf(Cfg(), old(View()), path, proof)
    {
      var target := Matches(path);
      if target {
        RetainUnchecked(path, proof);
      } else {
        MaybeTrackNontarget(path, proof);
      }
    }

    method RetainExtensionProof(path: Nibbles, short: Nibbles, proof: Bytes)
      requires addedRemovedKeys.Some? ==> |path| <= 64
      modifies this`proofNodes, this`tracking
      ensures View() == OnExtension(Cfg(), old(View()), path, short, proof)
    {
      var target := Matches(path);
      if target {
        RetainUnchecked(path, proof);
        if addedRemovedKeys.Some? {
          var isPrefixAdded := addedRemovedKeys.value.IsPrefixAdded(path);
          var childIsNontarget := tracking.ExtensionChildIsNontarget(path, short);
          if isPrefixAdded && childIsNontarget {
            RetainUnchecked(tracking.lastBranchPath, tracking.lastBranchProof);
          }
        }
      } else {
        MaybeTrackNontarget(path, proof);
      }
    }

    method RetainBranchProof(path: Nibbles, stateMask: Mask, proof: Bytes)
      requires addedRemovedKeys.Some? ==> |path| < 64
      modifies this`proofNodes, this`tracking
      ensures View() == OnBranch(Cfg(), old(View()), path, stateMask, proof)
    {
      var target := Matches(path);
      if target {
        RetainUnchecked(path, proof);
        if addedRemovedKeys.Some? {
          var removedMask := addedRemovedKeys.value.GetRemovedMask(path);
          var nonremovedMask := stateMask - removedMask;
          var childIsNontarget := tracking.BranchChildIsNontarget(path, Lowest(nonremovedMask, 0));
          if |nonremovedMask| == 1 && childIsNontarget {
            RetainUnchecked(tracking.lastNontargetPath, tracking.lastNontargetProof);
          }
        }
      } else {
        MaybeTrackNontarget(path, proof);
      }
      if addedRemovedKeys.Some? {
        tracking := tracking.(lastBranchPath := path, lastBranchProof := proof);
      }
    }
  }
}
