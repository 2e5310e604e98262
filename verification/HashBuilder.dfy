/** The streaming hash builder: it takes keys in ascending order, keeps a stack of references and
    three vectors of masks, and never builds the trie. */
module HashBuilders {
  import opened Primitives
  import opened Masks
  import opened Tries
  import opened Traversal
  import opened Nodes
  import opened Spines
  import opened SpineSteps
  import opened ChildMarks
  import opened BuilderInvariant
  import opened Retention

  datatype HashBuilderValue = BytesValue(bytes: Bytes) | HashValue(word: Word)

  /** The word of a 33-byte reference. */
  function AsHash(r: Bytes): (w: Option<Word>) {
    if |r| == 33 then Some(r[1..]) else None
  }

  /** `BranchNodeCompact::new` asserts that its arguments fit together. */
  predicate CompactFits(stateMask: Mask, treeMask: Mask, hashMask: Mask, hashes: seq<Word>) {
    treeMask <= stateMask && hashMask <= stateMask && Rank(hashMask, 16) == |hashes|
  }

  function NewCompact(stateMask: Mask, treeMask: Mask, hashMask: Mask, hashes: seq<Word>,
                      rootHash: Option<Word>): (r: BranchNodeCompact)
    requires CompactFits(stateMask, treeMask, hashMask, hashes)
  {
    BranchNodeCompact(stateMask, treeMask, hashMask, hashes, rootHash)
  }

  /** Branch records hold the hashes of branch children, and a child's hash can only be read off
      its reference when it is long enough to be hashed: with records on, that is needed of every
      branch finished before the next key. */
  ghost predicate BranchesHashed(m: Entries, succeeding: Nibbles)
    requires PrefixFree(m)
  {
    forall p: Nibbles | At(m, p).Branch? && (succeeding == [] || !(p <= succeeding)) :: HashedChildren(m, p)
  }

  class HashBuilder {
    var key: Nibbles
    var value: HashBuilderValue
    var stack: seq<Bytes>
    var stateMasks: seq<Mask>
    var treeMasks: seq<Mask>
    var hashMasks: seq<Mask>
    var storedInDatabase: bool
    var updatedBranchNodes: Option<Updates>
    const proofRetainer: ProofRetainer?

    /** Every entry added so far, and every node finished so far in the order of finishing. */
    ghost var entries: Entries
    ghost var visited: seq<Placed>

    ghost function EntryValue(): Value
      reads this`value, this`storedInDatabase
    {
      match value
      case BytesValue(b) => Data(b)
      case HashValue(w) => Hash(w, storedInDatabase)
    }

    /** The branch records are those of the finished nodes. */
    ghost predicate Recording(seen: seq<Placed>)
      reads this`updatedBranchNodes
    {
      updatedBranchNodes.Some? ==> updatedBranchNodes.value == RecordedAll(seen)
    }

    /** The retainer has been shown the finished nodes, in order. */
    ghost predicate Retaining(seen: seq<Placed>)
      reads proofRetainer
    {
      proofRetainer != null ==> proofRetainer.View() == Run(proofRetainer.Cfg(), seen)
    }

    /** The retainer's keys have 64 nibbles; with them on, no path may be longer. */
    ghost predicate PathFits(path: Nibbles)
      reads proofRetainer
    {
      proofRetainer != null && proofRetainer.addedRemovedKeys.Some? ==> |path| <= 64
    }

    ghost predicate Valid()
      reads this, proofRetainer
    {
      && PrefixFree(entries)
      && Recording(visited)
      && Retaining(visited)
      && if key == [] then Fresh() else
           && Latest(entries, key)
           && entries[key] == EntryValue()
           && PathFits(key)
           && SpineOk(entries, key, false, stateMasks, stack, visited)
           && KidsOk(entries, key, false, hashMasks, treeMasks)
    }

    /** Nothing added yet, or only the hash of a whole trie. */
    ghost predicate Fresh()
      reads this
    {
      && visited == [] && stateMasks == [] && treeMasks == [] && hashMasks == []
      && if entries == map[] then stack == []
         else exists h, s :: entries == map[[] := Hash(h, s)] && stack == [WordRlp(h)]
    }

    constructor (retainUpdates: bool, retainer: ProofRetainer?)
      requires retainer != null ==> retainer.View() == NOTHING_RETAINED
      ensures Valid() && entries == map[] && key == []
      ensures updatedBranchNodes.Some? == retainUpdates && proofRetainer == retainer
    {
      key, value, stack := [], BytesValue([]), [];
      stateMasks, treeMasks, hashMasks := [], [], [];
      storedInDatabase := false;
      updatedBranchNodes := if retainUpdates then Some(map[]) else None;
      proofRetainer := retainer;
      entries, visited := map[], [];
    }

    // ----- Helpers of the update loop -----

    method ResizeMasks(n: nat)
      modifies this`treeMasks, this`hashMasks
      ensures treeMasks == Resized(old(treeMasks), n) && hashMasks == Resized(old(hashMasks), n)
    {
      treeMasks := Resized(treeMasks, n);
      hashMasks := Resized(hashMasks, n);
    }

    method PopEmptyStateMasks()
      modifies this`stateMasks
      ensures stateMasks == Trimmed(old(stateMasks))
    {
      while stateMasks != [] && stateMasks[|stateMasks| - 1] == {}
        invariant Trimmed(stateMasks) == Trimmed(old(stateMasks))
        decreases |stateMasks|
      {
        stateMasks := stateMasks[..|stateMasks| - 1];
      }
    }

    /** Pushes a leaf and shows it to the retainer. */
    method PushLeaf(path: Nibbles, short: Nibbles, bytes: Bytes)
      requires Recording(visited) && Retaining(visited) && PathFits(path)
      modifies this`stack, this`visited, proofRetainer
      ensures stack == old(stack) + [Reference(Leaf(short, bytes))]
      ensures visited == old(visited) + [Placed(path, Leaf(short, bytes))]
      ensures Recording(visited) && Retaining(visited)
      ensures proofRetainer != null ==> proofRetainer.Cfg() == old(proofRetainer.Cfg())
    {
      var rlp := EncodeLeaf(short, bytes);
      stack := stack + [FromRlp(rlp)];
      if proofRetainer != null {
        proofRetainer.RetainLeafProof(path, rlp);
      }
      visited := visited + [Placed(path, Leaf(short, bytes))];
      assert visited[..|visited| - 1] == old(visited);
    }

    /** Replaces the reference on top of the stack by that of an extension to it. */
    method WrapExtension(path: Nibbles, short: Nibbles, ghost child: Trie)
      requires stack != [] && stack[|stack| - 1] == Reference(child)
      requires Recording(visited) && Retaining(visited) && PathFits(path)
      modifies this`stack, this`visited, proofRetainer
      ensures stack == old(stack)[..|old(stack)| - 1] + [Reference(Ext(short, child))]
      ensures visited == old(visited) + [Placed(path, Ext(short, child))]
      ensures Recording(visited) && Retaining(visited)
      ensures proofRetainer != null ==> proofRetainer.Cfg() == old(proofRetainer.Cfg())
    {
      var last := stack[|stack| - 1];
      stack := stack[..|stack| - 1];
      var rlp := EncodeExtension(short, last);
      ghost var ext := Ext(short, child);
      assert rlp == Encode(ext);
      stack := stack + [FromRlp(rlp)];
      if proofRetainer != null {
        proofRetainer.RetainExtensionProof(path, short, rlp);
      }
      visited := visited + [Placed(path, ext)];
      assert visited[..|visited| - 1] == old(visited);
    }

    /** `update_masks`: an extension's child is not a direct branch child of the level above. */
    method UpdateMasks(current: Nibbles, lenFrom: nat)
      requires lenFrom < |current| <= |treeMasks| == |hashMasks|
      modifies this`treeMasks, this`hashMasks
      ensures lenFrom > 0 ==> hashMasks == ClearBit(old(hashMasks), lenFrom - 1, current[lenFrom - 1])
      ensures lenFrom > 0 && old(treeMasks)[|current| - 1] != {} ==>
                treeMasks == SetBit(old(treeMasks), lenFrom - 1, current[lenFrom - 1])
      ensures old(treeMasks)[|current| - 1] == {} ==> treeMasks == old(treeMasks)
      ensures lenFrom == 0 ==> hashMasks == old(hashMasks) && treeMasks == old(treeMasks)
    {
      if lenFrom > 0 {
        hashMasks := hashMasks[lenFrom - 1 := hashMasks[lenFrom - 1] - {current[lenFrom - 1]}];
        if treeMasks[|current| - 1] != {} {
          treeMasks := treeMasks[lenFrom - 1 := treeMasks[lenFrom - 1] + {current[lenFrom - 1]}];
        }
      }
    }

    /** The hash of the node on top of the stack. */
    function CurrentRoot(): (w: Word)
      reads this
    {
      if stack == [] then EMPTY_ROOT_HASH
      else
        var top := stack[|stack| - 1];
        if AsHash(top).Some? then AsHash(top).value else Keccak(top)
    }

    /** Replaces the children on top of the stack by the branch over them, shows the branch to
        the retainer, and reads the hashes of its branch children when records are on. */
    method PushBranchNode(current: Nibbles, len: nat, ghost node: Trie) returns (children: seq<Word>)
      requires len < |stateMasks| && len < |hashMasks| && len <= |current|
      requires node.Branch? && |node.children| == 16 && stateMasks[len] == StateMask(node)
      requires Rank(stateMasks[len], 16) <= |stack|
      requires BranchRlp(Tail(stack, stateMasks[len]), stateMasks[len]) == Encode(node)
      requires updatedBranchNodes.Some? ==>
                 && (forall x: Nibble | x in stateMasks[len] && x in hashMasks[len] ::
                       |Slot(Tail(stack, stateMasks[len]), stateMasks[len], x)| == 33)
                 && HashesIn(Tail(stack, stateMasks[len]), stateMasks[len], hashMasks[len], 16) == ChildHashes(node, 16)
      requires Retaining(visited) && PathFits(current) && len < |current|
      modifies this`stack, this`visited, proofRetainer
      ensures stack == old(stack)[..|old(stack)| - Rank(stateMasks[len], 16)] + [Reference(node)]
      ensures visited == old(visited) + [Placed(current[..len], node)]
      ensures Retaining(visited)
      ensures updatedBranchNodes.Some? ==> children == ChildHashes(node, 16)
      ensures proofRetainer != null ==> proofRetainer.Cfg() == old(proofRetainer.Cfg())
    {
      var stateMask := stateMasks[len];
      var hashMask := hashMasks[len];
      children := [];
      if updatedBranchNodes.Some? {
        children := ChildHashesOf(stack, stateMask, hashMask);
      }
      var rlp := EncodeBranch(stack, stateMask);
      var path := current[..len];
      if proofRetainer != null {
        proofRetainer.RetainBranchProof(path, stateMask, rlp);
      }
      stack := stack[..|stack| - Rank(stateMask, 16)];
      stack := stack + [FromRlp(rlp)];
      visited := visited + [Placed(path, node)];
      assert visited[..|visited| - 1] == old(visited);
    }

    /** Marks a new branch in its parent's masks and records it when it is kept. */
    method StoreBranchNode(current: Nibbles, len: nat, children: seq<Word>, ghost node: Trie, ghost seen: seq<Placed>)
      requires len < |stateMasks| && len < |hashMasks| == |treeMasks| && len <= |current|
      requires node.Branch? && |node.children| == 16
      requires stateMasks[len] == StateMask(node)
      requires treeMasks[len] == TreeMask(node) && hashMasks[len] == HashMask(node)
      requires updatedBranchNodes.Some? ==> children == ChildHashes(node, 16)
      requires stack != [] && stack[|stack| - 1] == Reference(node)
      requires visited == seen + [Placed(current[..len], node)] && Recording(seen)
      modifies this`hashMasks, this`treeMasks, this`updatedBranchNodes
      ensures Recording(visited) && updatedBranchNodes.Some? == old(updatedBranchNodes.Some?)
      ensures |hashMasks| == |treeMasks| == old(|treeMasks|)
      ensures hashMasks == if len > 0 then SetBit(old(hashMasks), len - 1, current[len - 1]) else old(hashMasks)
      ensures treeMasks ==
                if len > 0 && TreeChild(node) then SetBit(old(treeMasks), len - 1, current[len - 1]) else old(treeMasks)
    {
      StoredMasks(node);
      assert visited[..|visited| - 1] == seen;
      if len > 0 {
        hashMasks := hashMasks[len - 1 := hashMasks[len - 1] + {current[len - 1]}];
      }
      var storeInDbTrie := treeMasks[len] != {} || hashMasks[len] != {};
      if storeInDbTrie {
        if len > 0 {
          treeMasks := treeMasks[len - 1 := treeMasks[len - 1] + {current[len - 1]}];
        }
        if updatedBranchNodes.Some? {
          var commonPrefix := current[..len];
          var compact := NewCompact(stateMasks[len], treeMasks[len], hashMasks[len], children,
                                    if len == 0 then Some(CurrentRoot()) else None);
          updatedBranchNodes := Some(updatedBranchNodes.value[commonPrefix := compact]);
        }
      }
    }

    /** Between two steps of the loop: the finished subtries of the path cur are on the stack, and
        with tip set the node at cur is on top of them. */
    ghost predicate InStep(cur: Nibbles, tip: bool, masks: seq<Mask>)
      reads this`entries, this`key, this`stack, this`visited, this`hashMasks, this`treeMasks
      reads this`updatedBranchNodes, proofRetainer
    {
      && PrefixFree(entries) && Latest(entries, key) && PathFits(key) && cur <= key
      && SpineOk(entries, cur, tip, masks, stack, visited)
      && KidsOk(entries, cur, tip, hashMasks, treeMasks)
      && Recording(visited) && Retaining(visited)
    }

    /** The middle of the loop: the node at the end of the current path is finished as a leaf, a
        known hash or a branch, and extended up to just below the last marked level. */
    method FinishNode(current: Nibbles, lenFrom: nat, buildExtensions: bool, ghost masks: seq<Mask>)
      requires InStep(current, buildExtensions, masks) && current != []
      requires if buildExtensions then HashChild(At(entries, current))
               else current == key && entries[key] == EntryValue()
      requires |masks| <= lenFrom <= |current| <= |treeMasks|
      modifies this`stack, this`visited, this`treeMasks, this`hashMasks, proofRetainer
      ensures InStep(current[..lenFrom], true, masks)
      ensures lenFrom <= |treeMasks|
      ensures proofRetainer != null ==> proofRetainer.Cfg() == old(proofRetainer.Cfg())
    {
      hide At, MarksSiblings, MarksChildren, Grove;
      var short := current[lenFrom..];
      var extend := buildExtensions;
      if !buildExtensions {
        match value
        case BytesValue(bytes) =>
          PushedLeaf(entries, current, masks, stack, visited, lenFrom);
          LeafMarks(entries, current, false, masks, hashMasks, lenFrom);
          LeafMarks(entries, current, true, masks, treeMasks, lenFrom);
          PushLeaf(current[..lenFrom], short, bytes);
        case HashValue(word) =>
          PushHash(current, word, masks);
          extend := true;
      }
      if extend {
        if short != [] {
          Extend(current, lenFrom, masks);
        } else {
          assert current[..lenFrom] == current;
        }
      }
    }

    method PushHash(current: Nibbles, word: Word, ghost masks: seq<Mask>)
      requires InStep(current, false, masks)
      requires current in entries && entries[current] == Hash(word, storedInDatabase)
      requires 0 < |current| <= |treeMasks|
      modifies this`stack, this`treeMasks, this`hashMasks
      ensures InStep(current, true, masks)
      ensures |treeMasks| == old(|treeMasks|) && HashChild(At(entries, current))
    {
      hide At, MarksSiblings, MarksChildren, Grove;
      PushedStub(entries, current, masks, stack, visited);
      StubKids(entries, current, hashMasks, treeMasks);
      stack := stack + [WordRlp(word)];
      var last := |current| - 1;
      if storedInDatabase {
        treeMasks := SetBit(treeMasks, last, current[last]);
      }
      hashMasks := SetBit(hashMasks, last, current[last]);
    }

    method Extend(current: Nibbles, lenFrom: nat, ghost masks: seq<Mask>)
      requires InStep(current, true, masks) && HashChild(At(entries, current))
      requires |masks| <= lenFrom < |current| <= |treeMasks|
      modifies this`stack, this`visited, this`treeMasks, this`hashMasks, proofRetainer
      ensures InStep(current[..lenFrom], true, masks)
      ensures |treeMasks| == lenFrom
      ensures proofRetainer != null ==> proofRetainer.Cfg() == old(proofRetainer.Cfg())
    {
      hide At, MarksSiblings, MarksChildren, Grove, Recording, Retaining, Encode;
      assert Inhabited(entries, current);
      PushedExtension(entries, current, masks, stack, visited, lenFrom);
      ExtendedKids(entries, current, masks, hashMasks, treeMasks, lenFrom);
      UpdateMasks(current, lenFrom);
      WrapExtension(current[..lenFrom], current[lenFrom..], At(entries, current));
      ResizeMasks(lenFrom);
    }

    /** The end of the loop: the children at the last marked level become a branch. */
    method FinishBranch(current: Nibbles, len: nat, ghost masks: seq<Mask>)
      requires len < |current| && InStep(current[..len + 1], true, masks) && current <= key
      requires MarksSiblings(entries, current, masks) && |masks| == len + 1 && masks[len] != {}
      requires stateMasks == Marked(masks, len, current[len])
      requires len < |treeMasks|
      requires updatedBranchNodes.Some? && At(entries, current[..len]).Branch? ==>
                 HashedChildren(entries, current[..len])
      modifies this`stack, this`visited, this`treeMasks, this`hashMasks, this`updatedBranchNodes, proofRetainer
      ensures InStep(current[..len], true, Trimmed(masks[..len]))
      ensures HashChild(At(entries, current[..len]))
      ensures updatedBranchNodes.Some? == old(updatedBranchNodes.Some?)
      ensures proofRetainer != null ==> proofRetainer.Cfg() == old(proofRetainer.Cfg())
    {
      hide At, MarksSiblings, MarksChildren, SpineOk, HashedChildren, Retaining, Recording, Latest;
      hide Encode, HashesIn, ChildHashes, BranchRlp, Slot, StateMask, HashMask, TreeMask, TreeChild, PrefixFree;
      ghost var p := current[..len];
      BranchFacts(entries, key, current, masks, stack, visited, hashMasks, treeMasks, len);
      MarkedParts(masks, len, current[len]);
      assert Resized(masks, len + 1) == masks;
      ghost var seen := visited;
      var children := PushBranchNode(current, len, At(entries, p));
      StoreBranchNode(current, len, children, At(entries, p), seen);
      ResizeMasks(len);
    }

    method GrowMasks(current: Nibbles, ghost tip: bool, ghost masks: seq<Mask>)
      requires InStep(current, tip, masks)
      modifies this`treeMasks, this`hashMasks
      ensures InStep(current, tip, masks) && |current| <= |treeMasks|
    {
      hide At, MarksSiblings, MarksChildren, SpineOk, Retaining, Recording, Latest;
      if |treeMasks| < |current| {
        MarksGrow(entries, current, tip, false, hashMasks, |current|);
        MarksGrow(entries, current, tip, true, treeMasks, |current|);
        ResizeMasks(|current|);
      }
    }

    /** What holds once the next key leaves the path at level l. */
    lemma Settled(succeeding: Nibbles, current: Nibbles, masks: seq<Mask>, l: nat)
      requires l < |current| && current <= key && InStep(current[..l + 1], true, masks)
      requires MarksSiblings(entries, current, masks) && |masks| <= l + 1
      requires Follows(key, succeeding) && l == CommonPrefixLength(succeeding, current)
      ensures SpineOk(entries, succeeding, false, Marked(masks, l, current[l]), stack, visited)
      ensures KidsOk(entries, succeeding, false, hashMasks, treeMasks)
    {
      hide At, MarksSiblings, MarksChildren, SpineOk, Retaining, Recording, Latest, Follows, CommonPrefixLength;
      MovedOn(entries, key, current, masks, stack, visited, succeeding, l);
      NextMarks(entries, key, current, false, masks, hashMasks, succeeding, l);
      NextMarks(entries, key, current, true, masks, treeMasks, succeeding, l);
    }

    /** Marks the path's own nibble at a level, growing the state masks when needed. */
    method MarkStateMask(len: nat, digit: Nibble)
      modifies this`stateMasks
      ensures stateMasks == Marked(old(stateMasks), len, digit)
    {
      if |stateMasks| <= len {
        stateMasks := Resized(stateMasks, len + 1);
      }
      stateMasks := stateMasks[len := stateMasks[len] + {digit}];
    }

    /** The first half of a round: marks the level, makes room in the masks, finishes the node. */
    method Advance(current: Nibbles, len: nat, lenFrom: nat, buildExtensions: bool)
      requires InStep(current, buildExtensions, stateMasks) && len < |current|
      requires if buildExtensions then HashChild(At(entries, current))
               else current == key && entries[key] == EntryValue()
      requires |stateMasks| <= lenFrom <= |current|
      modifies this`stack, this`visited, this`stateMasks, this`treeMasks, this`hashMasks, proofRetainer
      ensures InStep(current[..lenFrom], true, old(stateMasks))
      ensures stateMasks == Marked(old(stateMasks), len, current[len])
      ensures lenFrom <= |treeMasks|
      ensures proofRetainer != null ==> proofRetainer.Cfg() == old(proofRetainer.Cfg())
    {
      hide At, InStep, HashChild, Marked;
      ghost var masks := stateMasks;
      MarkStateMask(len, current[len]);
      GrowMasks(current, buildExtensions, masks);
      FinishNode(current, lenFrom, buildExtensions, masks);
    }

    /** The second half of a round: closes the level with a branch and drops it and the empty
        levels above it from the state masks. */
    method CloseLevel(current: Nibbles, len: nat, ghost masks: seq<Mask>)
      requires len < |current| && InStep(current[..len + 1], true, masks) && current <= key
      requires MarksSiblings(entries, current, masks) && |masks| == len + 1 && masks[len] != {}
      requires stateMasks == Marked(masks, len, current[len])
      requires len < |treeMasks|
      requires updatedBranchNodes.Some? && At(entries, current[..len]).Branch? ==>
                 HashedChildren(entries, current[..len])
      modifies this`stack, this`visited, this`stateMasks, this`treeMasks, this`hashMasks
      modifies this`updatedBranchNodes, proofRetainer
      ensures InStep(current[..len], true, stateMasks)
      ensures HashChild(At(entries, current[..len]))
      ensures updatedBranchNodes.Some? == old(updatedBranchNodes.Some?)
      ensures proofRetainer != null ==> proofRetainer.Cfg() == old(proofRetainer.Cfg())
    {
      hide At, InStep, HashChild, MarksSiblings, HashedChildren;
      FinishBranch(current, len, masks);
      MarkedParts(masks, len, current[len]);
      assert Resized(masks, len + 1)[..len] == masks[..len];
      stateMasks := Resized(stateMasks, len);
      PopEmptyStateMasks();
    }

    /** What `update` leaves behind: the spine of the path to the next key or, with no next key,
        the root's reference and every node visited in post-order. */
    ghost predicate Updated(succeeding: Nibbles)
      reads this`entries, this`key, this`stack, this`visited, this`hashMasks, this`treeMasks, this`stateMasks
      reads this`updatedBranchNodes, proofRetainer
    {
      && PrefixFree(entries) && Recording(visited) && Retaining(visited) && PathFits(key)
      && if succeeding == [] then
           stack == [Reference(At(entries, []))] && visited == PostOrder(At(entries, []), [])
         else
           && SpineOk(entries, succeeding, false, stateMasks, stack, visited)
           && KidsOk(entries, succeeding, false, hashMasks, treeMasks)
    }

    /** One round of the loop.  Either everything the next key leaves behind is finished, or the
        node at a shorter path is. */
    method Round(succeeding: Nibbles, current: Nibbles, buildExtensions: bool) returns (done: bool, next: Nibbles)
      requires InStep(current, buildExtensions, stateMasks)
      requires if buildExtensions then HashChild(At(entries, current))
               else current == key && key in entries && entries[key] == EntryValue()
      requires CommonPrefixLength(succeeding, current) < |current|
      requires succeeding == [] || Follows(key, succeeding)
      requires updatedBranchNodes.Some? ==> PrefixFree(entries) && BranchesHashed(entries, succeeding)
      modifies this`stack, this`visited, this`stateMasks, this`treeMasks, this`hashMasks
      modifies this`updatedBranchNodes, proofRetainer
      ensures done ==> Updated(succeeding)
      ensures !done ==>
                && InStep(next, true, stateMasks) && HashChild(At(entries, next))
                && CommonPrefixLength(succeeding, next) < |next| < |current|
      ensures updatedBranchNodes.Some? == old(updatedBranchNodes.Some?)
      ensures proofRetainer != null ==> proofRetainer.Cfg() == old(proofRetainer.Cfg())
    {
      hide At, Retaining, Recording, PathFits, Latest, PrefixFree, Follows, BranchesHashed, CommonPrefixLength;
      hide SpineOk, KidsOk, MarksSiblings, HashChild, PostOrder, Reference, HashedChildren, InStep;
      ghost var masks := stateMasks;
      StepMasks(current, buildExtensions, masks);

      var precedingExists := stateMasks != [];
      var precedingLen := if precedingExists then |stateMasks| - 1 else 0;
      var commonPrefixLen := CommonPrefixLength(succeeding, current);
      var len := if precedingLen < commonPrefixLen then commonPrefixLen else precedingLen;
      assert len < |current|;
      var lenFrom := if succeeding != [] || precedingExists then len + 1 else len;
      Advance(current, len, lenFrom, buildExtensions);
      StepMasks(current[..lenFrom], true, masks);

      if precedingLen <= commonPrefixLen && succeeding != [] {
        Settled(succeeding, current, masks, len);
        return true, current;
      }

      if succeeding != [] || precedingExists {
        ChildrenHashed(succeeding, current, len);
        CloseLevel(current, len, masks);
        StepMasks(current[..len], true, stateMasks);
      } else {
        RootStep(masks);
        stateMasks := Resized(stateMasks, len);
        ResizeMasks(len);
      }

      if precedingLen == 0 {
        if precedingExists {
          RootStep(stateMasks);
        }
        return true, current;
      }
      StillLeaves(succeeding, current, precedingLen);
      return false, current[..precedingLen];
    }

    /** Finishes every subtrie that the next key leaves behind; with no next key, everything.
        The path shrinks with every round, so the loop ends, and the source's assertion that the
        new level lies inside the path always holds. */
    method Update(succeeding: Nibbles)
      requires Valid() && key != []
      requires succeeding == [] || Follows(key, succeeding)
      requires updatedBranchNodes.Some? ==> BranchesHashed(entries, succeeding)
      modifies this`stack, this`visited, this`stateMasks, this`treeMasks, this`hashMasks
      modifies this`updatedBranchNodes, proofRetainer
      ensures Updated(succeeding)
      ensures updatedBranchNodes.Some? == old(updatedBranchNodes.Some?)
      ensures proofRetainer != null ==> proofRetainer.Cfg() == old(proofRetainer.Cfg())
    {
      StartStep();
      hide At, PrefixFree, Follows, BranchesHashed, CommonPrefixLength, HashChild, InStep, Valid, Updated;
      LeavesKey(succeeding, key);
      var buildExtensions := false;
      var current := key;
      var done := false;
      while !done
        invariant done ==> Updated(succeeding)
        invariant !done ==>
                    && InStep(current, buildExtensions, stateMasks)
                    && (if buildExtensions then HashChild(At(entries, current)) else current == key)
                    && CommonPrefixLength(succeeding, current) < |current|
        invariant updatedBranchNodes.Some? == old(updatedBranchNodes.Some?)
        invariant proofRetainer != null ==> proofRetainer.Cfg() == old(proofRetainer.Cfg())
        decreases !done, |current|
      {
        done, current := Round(succeeding, current, buildExtensions);
        buildExtensions := true;
      }
    }

    lemma StartStep()
      requires Valid() && key != []
      ensures InStep(key, false, stateMasks) && key in entries && entries[key] == EntryValue()
    {
    }

    lemma StepMasks(current: Nibbles, tip: bool, masks: seq<Mask>)
      requires InStep(current, tip, masks)
      ensures Recording(visited) && Retaining(visited) && PathFits(key) && key in entries && current <= key
      ensures PrefixFree(entries) && MarksSiblings(entries, current, masks) && |masks| <= |current|
      ensures masks != [] ==> masks[|masks| - 1] != {}
    {
    }

    lemma RootStep(masks: seq<Mask>)
      requires InStep([], true, masks)
      ensures Recording(visited) && Retaining(visited) && PathFits(key)
      ensures stack == [Reference(At(entries, []))] && visited == PostOrder(At(entries, []), [])
    {
      RootSpine(entries, masks, stack, visited);
    }

    lemma ChildrenHashed(succeeding: Nibbles, current: Nibbles, len: nat)
      requires PrefixFree(entries) && len < |current|
      requires updatedBranchNodes.Some? ==> BranchesHashed(entries, succeeding)
      requires succeeding == [] || CommonPrefixLength(succeeding, current) < len
      ensures updatedBranchNodes.Some? && At(entries, current[..len]).Branch? ==>
                 HashedChildren(entries, current[..len])
    {
      hide At, HashedChildren;
      if succeeding != [] {
        StillLeaves(succeeding, current, len);
      }
    }

    // ----- Adding entries -----

    /** A key may be added when it follows the last one.  (A key before the last one makes the
        source panic; a key that extends the last one breaks its assertion in the loop.) */
    ghost predicate CanAdd(next: Nibbles)
      reads this, proofRetainer
    {
      && PrefixFree(entries)
      && next != [] && (if key == [] then entries == map[] else Follows(key, next))
      && PathFits(next)
      && (updatedBranchNodes.Some? ==> BranchesHashed(entries, next))
    }

    /** The common part of `add_leaf` and `add_branch`. */
    method Prepare(next: Nibbles, ghost v: Value)
      requires Valid() && CanAdd(next)
      modifies this`stack, this`visited, this`stateMasks, this`treeMasks, this`hashMasks
      modifies this`updatedBranchNodes, proofRetainer
      ensures PrefixFree(entries[next := v]) && Latest(entries[next := v], next)
      ensures SpineOk(entries[next := v], next, false, stateMasks, stack, visited)
      ensures KidsOk(entries[next := v], next, false, hashMasks, treeMasks)
      ensures Recording(visited) && Retaining(visited) && PathFits(next)
      ensures updatedBranchNodes.Some? == old(updatedBranchNodes.Some?)
      ensures proofRetainer != null ==> proofRetainer.Cfg() == old(proofRetainer.Cfg())
    {
      hide SpineOk, Latest, PrefixFree, Follows, BranchesHashed, Recording, Retaining, MarksChildren, At;
      if key != [] {
        Update(next);
        AddedLatest(entries, key, next, v);
      } else {
        FirstKey(next);
        assert PrefixFree(map[next := v]) && Latest(map[next := v], next) by { Singleton(next, v); }
      }
      AddedSpine(entries, next, v, stateMasks, stack, visited);
      AddedKids(entries, next, v, false, hashMasks);
      AddedKids(entries, next, v, true, treeMasks);
    }

    method AddLeaf(next: Nibbles, bytes: Bytes)
      requires Valid() && CanAdd(next)
      modifies this, proofRetainer
      ensures Valid() && entries == old(entries)[next := Data(bytes)] && key == next
      ensures updatedBranchNodes.Some? == old(updatedBranchNodes.Some?)
      ensures proofRetainer != null ==> proofRetainer.Cfg() == old(proofRetainer.Cfg())
    {
      hide SpineOk, Latest, PrefixFree, KidsOk, Recording, Retaining, Follows, BranchesHashed, At;
      Prepare(next, Data(bytes));
      key, value := next, BytesValue(bytes);
      entries := entries[next := Data(bytes)];
    }

    /** A branch known by its hash goes in at its path; a known root goes straight on the stack. */
    method AddBranch(next: Nibbles, word: Word, stored: bool)
      requires Valid() && (CanAdd(next) || (next == [] && key == [] && entries == map[]))
      modifies this, proofRetainer
      ensures Valid() && entries == old(entries)[next := Hash(word, stored)] && key == next
      ensures updatedBranchNodes.Some? == old(updatedBranchNodes.Some?)
      ensures proofRetainer != null ==> proofRetainer.Cfg() == old(proofRetainer.Cfg())
    {
      hide SpineOk, Latest, KidsOk, Recording, Retaining, At, PrefixFree, Follows, BranchesHashed;
      if next == [] {
        stack := stack + [WordRlp(word)];
        Singleton(next, Hash(word, stored));
      } else {
        Prepare(next, Hash(word, stored));
      }
      key, value := next, HashValue(word);
      storedInDatabase := stored;
      entries := entries[next := Hash(word, stored)];
      if next == [] {
        assert entries == map[[] := Hash(word, stored)] && stack == [WordRlp(word)];
      }
    }

    // ----- The root -----

    /** The root hash of the trie of everything added; every node of that trie has been shown to
        the retainer in post-order, and the kept branches are recorded. */
    method Root() returns (root: Word)
      requires Valid() && (updatedBranchNodes.Some? ==> BranchesHashed(entries, []))
      modifies this, proofRetainer
      ensures PrefixFree(entries) && entries == old(entries)
      ensures root == RootHash(TrieOf(entries))
      ensures updatedBranchNodes.Some? == old(updatedBranchNodes.Some?)
      ensures updatedBranchNodes.Some? ==>
                updatedBranchNodes.value == RecordedAll(PostOrder(TrieOf(entries), []))
      ensures proofRetainer != null ==>
                && proofRetainer.Cfg() == old(proofRetainer.Cfg())
                && var nodes := Run(proofRetainer.Cfg(), PostOrder(TrieOf(entries), [])).nodes;
                   proofRetainer.proofNodes ==
                     if root == EMPTY_ROOT_HASH then nodes[[] := [EMPTY_STRING_CODE]] else nodes
    {
      hide SpineOk, KidsOk, Latest, PrefixFree, At, BranchesHashed, Encode;
      TrieOfAt(entries);
      if key != [] {
        Update([]);
        key, value := [], BytesValue([]);
      } else {
        FreshRoot();
      }
      TopHash(At(entries, []));
      root := CurrentRoot();
      if root == EMPTY_ROOT_HASH && proofRetainer != null {
        proofRetainer.RetainEmptyRootProof();
      }
    }

    lemma FreshRoot()
      requires Valid() && key == []
      ensures PostOrder(At(entries, []), []) == visited
      ensures stack == if entries == map[] then [] else [Reference(At(entries, []))]
      ensures entries == map[] ==> At(entries, []) == Empty && RootHash(At(entries, [])) == EMPTY_ROOT_HASH
    {
      if entries != map[] {
        var h, s :| entries == map[[] := Hash(h, s)] && stack == [WordRlp(h)];
        assert entries[[]] == Hash(h, s);
        AtSingle(entries, [], []);
      }
    }
  }

  /** The word read off a reference, or the hash of a short one, is the node's hash. */
  lemma TopHash(t: Trie)
    ensures var r := Reference(t);
            RootHash(t) == if AsHash(r).Some? then AsHash(r).value else Keccak(r)
  {
  }

  lemma Singleton(k: Nibbles, v: Value)
    ensures PrefixFree(map[k := v]) && Latest(map[k := v], k)
  {
  }

  /** A branch is kept exactly when one of its masks is not empty, and its masks fit together. */
  lemma StoredMasks(node: Trie)
    requires node.Branch? && |node.children| == 16
    ensures TreeChild(node) <==> TreeMask(node) != {} || HashMask(node) != {}
    ensures CompactFits(StateMask(node), TreeMask(node), HashMask(node), ChildHashes(node, 16))
  {
    var ch := node.children;
    forall x: Nibble
      ensures x in TreeMask(node) || x in HashMask(node) <==> TreeChild(ch[x]) || HashChild(ch[x])
    {
    }
    if TreeChild(node) {
      var i :| 0 <= i < |ch| && (HashChild(ch[i]) || TreeChild(ch[i]));
      assert i in TreeMask(node) || i in HashMask(node);
    }
  }
}
