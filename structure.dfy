/**
 * The document-structure sidebar's outline builder (`StructureSection`):
 * merging the root document's blocks with its included documents' blocks,
 * picking the sectioning blocks into a dictionary keyed by starting line, and
 * nesting them into a forest with an 8-slot predecessor table indexed by level.
 * The rows drawn by `draw_nodes` and the rows hit by a click are the same list.
 */
module Structure {
  import opened Wrappers
  import opened Strings
  import opened Sequences
  import opened Numbers

  /** Identity of an open document. */
  type DocId = nat

  /** The seventh field of a block list: missing until `update_items` appends the owning
      document; a synthetic file block carries it set to `None`. */
  datatype OwnerField = Absent | Present(document: Option<DocId>)

  /** A block: start offset, end offset (may be `None`), start line, end line, kind, text, owner. */
  datatype Block = Block(startOffset: int, endOffset: Option<int>, startLine: nat, endLine: nat,
                         kind: string, text: string, owner: OwnerField)

  /** An entry of `data_provider.get_includes()`. */
  datatype Include = Include(offset: int, filename: string, document: Option<DocId>)

  /** `self.levels`: the eight outline kinds and their nesting levels. */
  function LevelOf(kind: string): (r: Option<nat>)
    ensures r.Some? ==> r.value < 8
  {
    if kind == "part" then Some(0)
    else if kind == "chapter" then Some(1)
    else if kind == "section" then Some(2)
    else if kind == "subsection" then Some(3)
    else if kind == "subsubsection" then Some(4)
    else if kind == "paragraph" then Some(5)
    else if kind == "subparagraph" then Some(6)
    else if kind == "file" then Some(7)
    else None
  }

  // ---------------------------------------------------------------------------
  // Merge

  /** `if len(block) < 7: block.append(document)`. */
  function WithOwner(b: Block, d: DocId): Block
  {
    if b.owner.Absent? then b.(owner := Present(Some(d))) else b
  }

  function WithOwnerAll(bs: seq<Block>, d: DocId): (r: seq<Block>)
    ensures |r| == |bs|
    ensures forall i :: 0 <= i < |bs| ==> r[i] == WithOwner(bs[i], d)
  {
    seq(|bs|, i requires 0 <= i < |bs| => WithOwner(bs[i], d))
  }

  /** The placeholder for an include whose document is not open. */
  function FileBlock(filename: string): Block
  {
    Block(0, Some(0), 0, 0, "file", filename, Present(None))
  }

  /** What one include splices into the merged list. */
  function Contribution(inc: Include, blocksOf: DocId -> seq<Block>): seq<Block>
  {
    match inc.document
    case None => [FileBlock(inc.filename)]
    case Some(d) => WithOwnerAll(blocksOf(d), d)
  }

  /** The contributions of a list of includes, in list order. */
  function Expand(incs: seq<Include>, blocksOf: DocId -> seq<Block>): seq<Block>
  {
    if incs == [] then [] else Contribution(incs[0], blocksOf) + Expand(incs[1..], blocksOf)
  }

  /** The merged block list: before each root block come the pending includes whose offset is
      strictly smaller than its start offset; the includes left after the last root block come
      at the end. */
  function Merged(root: seq<Block>, rootDoc: DocId, incs: seq<Include>, blocksOf: DocId -> seq<Block>): seq<Block>
    decreases |root| + |incs|
  {
    if root == [] then Expand(incs, blocksOf)
    else if incs != [] && incs[0].offset < root[0].startOffset then
      Contribution(incs[0], blocksOf) + Merged(root, rootDoc, incs[1..], blocksOf)
    else [WithOwner(root[0], rootDoc)] + Merged(root[1..], rootDoc, incs, blocksOf)
  }

  /** Appends one include's contribution (the two copies of this code in `update_items`). */
  method AppendContribution(blocks: seq<Block>, inc: Include, blocksOf: DocId -> seq<Block>) returns (r: seq<Block>)
    ensures r == blocks + Contribution(inc, blocksOf)
  {
    r := blocks;
    if inc.document.Some? {
      var d := inc.document.value;
      var child := blocksOf(d);
      for j := 0 to |child|
        invariant r == blocks + WithOwnerAll(child[..j], d)
      {
        assert WithOwnerAll(child[..j + 1], d) == WithOwnerAll(child[..j], d) + [WithOwner(child[j], d)];
        r := r + [WithOwner(child[j], d)];
      }
      assert child[..|child|] == child;
    } else {
      r := r + [FileBlock(inc.filename)];
    }
  }

  /** The merge stage of `update_items`, with the include list consumed from the front. */
  method MergeBlocks(root: seq<Block>, rootDoc: DocId, includes: seq<Include>, blocksOf: DocId -> seq<Block>)
    returns (blocks: seq<Block>)
    ensures blocks == Merged(root, rootDoc, includes, blocksOf)
  {
    ghost var target := Merged(root, rootDoc, includes, blocksOf);
    var incs := includes;
    blocks := [];
    for i := 0 to |root|
      invariant blocks + Merged(root[i..], rootDoc, incs, blocksOf) == target
    {
      var block := root[i];
      blocks, incs := SplicePending(blocks, root[i..], rootDoc, incs, blocksOf);
      assert root[i..][0] == block && root[i..][1..] == root[i + 1..];
      blocks := blocks + [WithOwner(block, rootDoc)];
    }
    assert root[|root|..] == [];
    blocks := AppendRemaining(blocks, incs, blocksOf);
  }

  /** Splices in every pending include that starts strictly before the next root block. */
  method SplicePending(blocks: seq<Block>, rest: seq<Block>, rootDoc: DocId, includes: seq<Include>, blocksOf: DocId -> seq<Block>)
    returns (r: seq<Block>, incs: seq<Include>)
    requires rest != []
    ensures r + [WithOwner(rest[0], rootDoc)] + Merged(rest[1..], rootDoc, incs, blocksOf)
            == blocks + Merged(rest, rootDoc, includes, blocksOf)
  {
    r, incs := blocks, includes;
    while |incs| > 0 && incs[0].offset < rest[0].startOffset
      invariant r + Merged(rest, rootDoc, incs, blocksOf) == blocks + Merged(rest, rootDoc, includes, blocksOf)
      decreases |incs|
    {
      ghost var c := Contribution(incs[0], blocksOf);
      ghost var m := Merged(rest, rootDoc, incs[1..], blocksOf);
      assert Merged(rest, rootDoc, incs, blocksOf) == c + m;
      AppendAssoc(r, c, m);
      r := AppendContribution(r, incs[0], blocksOf);
      incs := incs[1..];
    }
    assert Merged(rest, rootDoc, incs, blocksOf) == [WithOwner(rest[0], rootDoc)] + Merged(rest[1..], rootDoc, incs, blocksOf);
    AppendAssoc(r, [WithOwner(rest[0], rootDoc)], Merged(rest[1..], rootDoc, incs, blocksOf));
  }

  /** The includes left after the last root block, appended in order. */
  method AppendRemaining(blocks: seq<Block>, includes: seq<Include>, blocksOf: DocId -> seq<Block>) returns (r: seq<Block>)
    ensures r == blocks + Expand(includes, blocksOf)
  {
    r := blocks;
    for j := 0 to |includes|
      invariant r + Expand(includes[j..], blocksOf) == blocks + Expand(includes, blocksOf)
    {
      assert includes[j..][0] == includes[j] && includes[j..][1..] == includes[j + 1..];
      AppendAssoc(r, Contribution(includes[j], blocksOf), Expand(includes[j + 1..], blocksOf));
      r := AppendContribution(r, includes[j], blocksOf);
    }
  }

  /** Number of blocks one include contributes: one placeholder, or the child's block count. */
  function ContributionSize(inc: Include, blocksOf: DocId -> seq<Block>): nat
  {
    match inc.document
    case None => 1
    case Some(d) => |blocksOf(d)|
  }

  function TotalSize(incs: seq<Include>, blocksOf: DocId -> seq<Block>): nat
  {
    if incs == [] then 0 else ContributionSize(incs[0], blocksOf) + TotalSize(incs[1..], blocksOf)
  }

  lemma {:induction false} ExpandSize(incs: seq<Include>, blocksOf: DocId -> seq<Block>)
    ensures |Expand(incs, blocksOf)| == TotalSize(incs, blocksOf)
  {
    if incs != [] {
      ExpandSize(incs[1..], blocksOf);
    }
  }

  /** The merged list holds every root block once plus every include's contribution. */
  lemma {:induction false} MergedLength(root: seq<Block>, rootDoc: DocId, incs: seq<Include>, blocksOf: DocId -> seq<Block>)
    ensures |Merged(root, rootDoc, incs, blocksOf)| == |root| + TotalSize(incs, blocksOf)
    decreases |root| + |incs|
  {
    if root == [] {
      ExpandSize(incs, blocksOf);
    } else if incs != [] && incs[0].offset < root[0].startOffset {
      MergedLength(root, rootDoc, incs[1..], blocksOf);
    } else {
      MergedLength(root[1..], rootDoc, incs, blocksOf);
    }
  }

  /** Without includes the merged list is the root document's blocks, each given its owner. */
  lemma {:induction false} MergedWithoutIncludes(root: seq<Block>, rootDoc: DocId, blocksOf: DocId -> seq<Block>)
    ensures Merged(root, rootDoc, [], blocksOf) == WithOwnerAll(root, rootDoc)
    decreases |root|
  {
    if root != [] {
      MergedWithoutIncludes(root[1..], rootDoc, blocksOf);
    }
  }

  predicate Owned(bs: seq<Block>)
  {
    forall i :: 0 <= i < |bs| ==> bs[i].owner.Present?
  }

  lemma {:induction false} ExpandOwned(incs: seq<Include>, blocksOf: DocId -> seq<Block>)
    ensures Owned(Expand(incs, blocksOf))
  {
    if incs != [] {
      ExpandOwned(incs[1..], blocksOf);
    }
  }

  /** After the merge every block carries its seventh field. */
  lemma {:induction false} MergedOwned(root: seq<Block>, rootDoc: DocId, incs: seq<Include>, blocksOf: DocId -> seq<Block>)
    ensures Owned(Merged(root, rootDoc, incs, blocksOf))
    decreases |root| + |incs|
  {
    if root == [] {
      ExpandOwned(incs, blocksOf);
    } else if incs != [] && incs[0].offset < root[0].startOffset {
      MergedOwned(root, rootDoc, incs[1..], blocksOf);
    } else {
      MergedOwned(root[1..], rootDoc, incs, blocksOf);
    }
  }

  /** An include strictly before a block's start offset lands before it; one at the same
      offset or later lands after it. */
  lemma IncludeOrderAgainstBlock(b: Block, rootDoc: DocId, inc: Include, blocksOf: DocId -> seq<Block>)
    ensures Merged([b], rootDoc, [inc], blocksOf) ==
            if inc.offset < b.startOffset then Contribution(inc, blocksOf) + [WithOwner(b, rootDoc)]
            else [WithOwner(b, rootDoc)] + Contribution(inc, blocksOf)
  {
    assert [b][0] == b && [b][1..] == [];
    assert [inc][0] == inc && [inc][1..] == [];
    assert Expand([inc], blocksOf) == Contribution(inc, blocksOf);
    assert Merged([], rootDoc, [inc], blocksOf) == Contribution(inc, blocksOf);
    assert Merged([b], rootDoc, [], blocksOf) == [WithOwner(b, rootDoc)];
  }

  /** The block lists as they stand after one `update_items`: `append` changed them in place. */
  function CompletedDocs(blocksOf: DocId -> seq<Block>): DocId -> seq<Block>
  {
    (d: DocId) => WithOwnerAll(blocksOf(d), d)
  }

  lemma ContributionCompleted(inc: Include, blocksOf: DocId -> seq<Block>)
    ensures Contribution(inc, CompletedDocs(blocksOf)) == Contribution(inc, blocksOf)
  {
    match inc.document
    case None =>
    case Some(d) =>
      assert WithOwnerAll(WithOwnerAll(blocksOf(d), d), d) == WithOwnerAll(blocksOf(d), d);
  }

  lemma {:induction false} ExpandCompleted(incs: seq<Include>, blocksOf: DocId -> seq<Block>)
    ensures Expand(incs, CompletedDocs(blocksOf)) == Expand(incs, blocksOf)
  {
    if incs != [] {
      ExpandCompleted(incs[1..], blocksOf);
      ContributionCompleted(incs[0], blocksOf);
    }
  }

  /** A second `update_items` over the blocks the first one completed in place gives the same
      merged list: no block grows beyond seven fields. */
  lemma {:induction false} RepeatedMergeStable(root: seq<Block>, rootDoc: DocId, incs: seq<Include>, blocksOf: DocId -> seq<Block>)
    ensures Merged(WithOwnerAll(root, rootDoc), rootDoc, incs, CompletedDocs(blocksOf)) == Merged(root, rootDoc, incs, blocksOf)
    decreases |root| + |incs|
  {
    var root' := WithOwnerAll(root, rootDoc);
    if root == [] {
      ExpandCompleted(incs, blocksOf);
    } else if incs != [] && incs[0].offset < root[0].startOffset {
      assert root'[0].startOffset == root[0].startOffset;
      RepeatedMergeStable(root, rootDoc, incs[1..], blocksOf);
      ContributionCompleted(incs[0], blocksOf);
    } else {
      assert root'[0].startOffset == root[0].startOffset;
      assert root'[1..] == WithOwnerAll(root[1..], rootDoc);
      RepeatedMergeStable(root[1..], rootDoc, incs, blocksOf);
    }
  }

  // ---------------------------------------------------------------------------
  // Section dictionary

  /** A value of the `sections` dict. */
  datatype Section = Section(document: Option<DocId>, offsetStart: int, startingLine: nat, block: Block)

  /** A Python dict from starting line to section: `keys` is its iteration order. */
  datatype SectionDict = SectionDict(keys: seq<nat>, values: map<nat, Section>)

  /** `d[k] = v`: a new key goes to the end, an existing key keeps its place. */
  function Put(d: SectionDict, k: nat, v: Section): SectionDict
  {
    SectionDict(if k in d.values then d.keys else d.keys + [k], d.values[k := v])
  }

  predicate WellFormed(d: SectionDict)
  {
    && (forall i, j :: 0 <= i < j < |d.keys| ==> d.keys[i] != d.keys[j])
    && (forall k :: k in d.values ==> k in d.keys)
    && (forall i :: 0 <= i < |d.keys| ==> d.keys[i] in d.values)
  }

  /** The first three conditions of line 95, except the comparison with `last_line`. */
  predicate IsSectionBlock(b: Block)
  {
    b.endOffset.Some? && LevelOf(b.kind).Some?
  }

  function SectionOf(b: Block): Section
    requires b.owner.Present?
  {
    Section(b.owner.document, b.startOffset, b.startLine, b)
  }

  /** Every value is the section of a sectioning block of `blocks`, keyed by its starting line. */
  predicate ValuesFrom(d: SectionDict, blocks: seq<Block>)
  {
    forall k :: k in d.values ==>
      && d.values[k].startingLine == k && IsSectionBlock(d.values[k].block)
      && d.values[k].block in blocks && d.values[k].block.owner.Present?
      && d.values[k] == SectionOf(d.values[k].block)
  }

  lemma ValuesFromGrow(d: SectionDict, prefix: seq<Block>, b: Block)
    requires ValuesFrom(d, prefix)
    ensures ValuesFrom(d, prefix + [b])
  {
    forall k | k in d.values
      ensures d.values[k].block in prefix + [b]
    {
      var x := d.values[k].block;
      var j :| 0 <= j < |prefix| && prefix[j] == x;
      assert (prefix + [b])[j] == x;
    }
  }

  lemma PutSection(d: SectionDict, b: Block, blocks: seq<Block>)
    requires WellFormed(d) && ValuesFrom(d, blocks)
    requires IsSectionBlock(b) && b.owner.Present?
    ensures WellFormed(Put(d, b.startLine, SectionOf(b)))
    ensures ValuesFrom(Put(d, b.startLine, SectionOf(b)), blocks + [b])
  {
    ValuesFromGrow(d, blocks, b);
    assert (blocks + [b])[|blocks|] == b;
  }

  /** The `sections` dict and `last_line` after the filter loop has read `blocks`. */
  function CollectSections(blocks: seq<Block>): (r: (SectionDict, int))
    requires Owned(blocks)
    ensures WellFormed(r.0)
    ensures r.1 == -1 || r.1 in r.0.values
    ensures ValuesFrom(r.0, blocks)
    decreases |blocks|
  {
    if blocks == [] then (SectionDict([], map[]), -1)
    else
      var prefix := blocks[..|blocks| - 1];
      var b := blocks[|blocks| - 1];
      assert prefix + [b] == blocks;
      var before := CollectSections(prefix);
      var d, last := before.0, before.1;
      if IsSectionBlock(b) && b.startLine != last then
        PutSection(d, b, prefix);
        (Put(d, b.startLine, SectionOf(b)), b.startLine as int)
      else
        ValuesFromGrow(d, prefix, b);
        (d, last)
  }

  /** The filter stage of `update_items`. */
  method FilterSections(blocks: seq<Block>) returns (sections: SectionDict)
    requires Owned(blocks)
    ensures sections == CollectSections(blocks).0
  {
    sections := SectionDict([], map[]);
    var lastLine: int := -1;
    for i := 0 to |blocks|
      invariant (sections, lastLine) == CollectSections(blocks[..i])
    {
      var block := blocks[i];
      assert blocks[..i + 1][..i] == blocks[..i];
      if IsSectionBlock(block) && block.startLine != lastLine {
        sections := Put(sections, block.startLine, SectionOf(block));
        lastLine := block.startLine;
      }
    }
    assert blocks[..|blocks|] == blocks;
  }

  /** Starting lines of the sectioning blocks, in block order. */
  function SectionLines(blocks: seq<Block>): seq<nat>
  {
    if blocks == [] then []
    else
      var b := blocks[|blocks| - 1];
      SectionLines(blocks[..|blocks| - 1]) + (if IsSectionBlock(b) then [b.startLine] else [])
  }

  /** The elements of `s` in order of first occurrence. */
  function FirstOccurrences(s: seq<nat>): (r: seq<nat>)
    ensures forall x :: x in r <==> x in s
  {
    if s == [] then []
    else
      var p := FirstOccurrences(s[..|s| - 1]);
      var x := s[|s| - 1];
      assert s == s[..|s| - 1] + [x];
      if x in p then p else p + [x]
  }

  /** The dict's keys are the starting lines of the sectioning blocks, each once, in order of
      first occurrence: a block skipped for repeating `last_line` has its line already a key. */
  lemma {:induction false} SectionKeysAreFirstLines(blocks: seq<Block>)
    requires Owned(blocks)
    ensures CollectSections(blocks).0.keys == FirstOccurrences(SectionLines(blocks))
    decreases |blocks|
  {
    if blocks != [] {
      var prefix := blocks[..|blocks| - 1];
      SectionKeysAreFirstLines(prefix);
      var lines := SectionLines(prefix);
      var b := blocks[|blocks| - 1];
      if IsSectionBlock(b) {
        assert SectionLines(blocks) == lines + [b.startLine];
        assert (lines + [b.startLine])[..|lines|] == lines;
      } else {
        assert SectionLines(blocks) == lines;
      }
    }
  }

  /** Python dict semantics at work: a block accepted on a line that is already a key (for
      instance a second placeholder for an unopened include, which also sits on line 0)
      replaces that key's value and keeps the key's place in the order. */
  lemma SameLineOverwrites(blocks: seq<Block>, c: Block)
    requires Owned(blocks) && c.owner.Present? && IsSectionBlock(c)
    requires c.startLine in CollectSections(blocks).0.values
    requires c.startLine != CollectSections(blocks).1
    ensures Owned(blocks + [c])
    ensures CollectSections(blocks + [c]).0.keys == CollectSections(blocks).0.keys
    ensures CollectSections(blocks + [c]).0.values == CollectSections(blocks).0.values[c.startLine := SectionOf(c)]
  {
    assert forall i :: 0 <= i < |blocks| ==> (blocks + [c])[i] == blocks[i];
    assert (blocks + [c])[|blocks|] == c;
    CollectSnoc(blocks, c);
  }

  /** One more block read by the filter loop. */
  lemma CollectSnoc(blocks: seq<Block>, b: Block)
    requires Owned(blocks + [b])
    ensures Owned(blocks)
    ensures CollectSections(blocks + [b]) ==
            if IsSectionBlock(b) && b.startLine != CollectSections(blocks).1
            then (Put(CollectSections(blocks).0, b.startLine, SectionOf(b)), b.startLine as int)
            else CollectSections(blocks)
  {
    assert forall i :: 0 <= i < |blocks| ==> blocks[i] == (blocks + [b])[i];
    assert (blocks + [b])[..|blocks|] == blocks;
  }

  /** `sections.values()` in iteration order. */
  function Values(d: SectionDict): (r: seq<Section>)
    requires WellFormed(d)
    ensures |r| == |d.keys|
  {
    seq(|d.keys|, i requires 0 <= i < |d.keys| => d.values[d.keys[i]])
  }

  function SectionsOf(blocks: seq<Block>): (r: seq<Section>)
    requires Owned(blocks)
    ensures forall i :: 0 <= i < |r| ==> LevelOf(r[i].block.kind).Some?
  {
    Values(CollectSections(blocks).0)
  }

  // ---------------------------------------------------------------------------
  // Forest

  /** `node['item']`: document, starting line, icon name, title. */
  datatype Item = Item(document: Option<DocId>, line: nat, icon: string, title: string)

  /** An outline node as the sidebar holds it. */
  datatype Node = Node(item: Item, children: seq<Node>)

  /** The block text with its lines joined by single spaces. */
  function Title(text: string): string
  {
    Join(SplitLines(text), " ")
  }

  function ItemOf(s: Section): Item
  {
    Item(s.document, s.startingLine, s.block.kind + "-symbolic", Title(s.block.text))
  }

  function ItemsOf(secs: seq<Section>): (r: seq<Item>)
    ensures |r| == |secs|
    ensures forall i :: 0 <= i < |secs| ==> r[i] == ItemOf(secs[i])
  {
    seq(|secs|, i requires 0 <= i < |secs| => ItemOf(secs[i]))
  }

  /** A node's icon names its kind and its title holds no line break. */
  lemma ItemShape(s: Section)
    ensures ItemOf(s).icon == s.block.kind + "-symbolic"
    ensures forall j :: 0 <= j < |ItemOf(s).title| ==> !IsLineBoundary(ItemOf(s).title[j])
  {
    SplitLinesNoBreak(s.block.text);
    JoinSpaceHasNoBreak(SplitLines(s.block.text));
  }

  function LevelsOf(secs: seq<Section>): (r: seq<nat>)
    requires forall i :: 0 <= i < |secs| ==> LevelOf(secs[i].block.kind).Some?
    ensures |r| == |secs|
    ensures forall i :: 0 <= i < |secs| ==> r[i] < 8
  {
    seq(|secs|, i requires 0 <= i < |secs| => LevelOf(secs[i].block.kind).value)
  }

  /** The latest index before `i` whose level is below `bound`, or -1. */
  function LastBelow(levels: seq<nat>, i: nat, bound: nat): (r: int)
    requires i <= |levels|
    ensures -1 <= r < i
    ensures r >= 0 ==> levels[r] < bound
    ensures forall j :: r < j < i ==> levels[j] >= bound
  {
    if i == 0 then -1 else if levels[i - 1] < bound then i - 1 else LastBelow(levels, i - 1, bound)
  }

  /** Index of the parent of section `i`, or -1 for a root: an earlier section of a strictly
      smaller level, with no section of a smaller level in between. */
  function ParentOf(levels: seq<nat>, i: nat): (r: int)
    requires i < |levels|
    ensures -1 <= r < i
    ensures r >= 0 ==> levels[r] < levels[i]
    ensures forall j :: r < j < i ==> levels[j] >= levels[i]
  {
    LastBelow(levels, i, levels[i])
  }

  function Parents(levels: seq<nat>): (r: seq<int>)
    ensures |r| == |levels|
    ensures forall i :: 0 <= i < |levels| ==> r[i] == ParentOf(levels, i)
  {
    seq(|levels|, i requires 0 <= i < |levels| => ParentOf(levels, i))
  }

  /** The shape of the forest: each node is a section index. */
  datatype Tree = Tree(index: nat, children: seq<Tree>)

  /** Reads the nodes from index `i` on whose levels exceed `bound`; a node's children are the
      run after it with deeper levels. Returns the forest and the first index not read. */
  function Parse(levels: seq<nat>, i: nat, bound: int): (r: (seq<Tree>, nat))
    requires i <= |levels|
    ensures i <= r.1 <= |levels|
    ensures forall k :: i <= k < r.1 ==> levels[k] > bound
    ensures r.1 == |levels| || levels[r.1] <= bound
    decreases |levels| - i
  {
    if i == |levels| || levels[i] <= bound then ([], i)
    else
      var (kids, j) := Parse(levels, i + 1, levels[i]);
      var (siblings, e) := Parse(levels, j, bound);
      ([Tree(i, kids)] + siblings, e)
  }

  function Forest(levels: seq<nat>): seq<Tree>
  {
    Parse(levels, 0, -1).0
  }

  function Preorder(f: seq<Tree>): seq<nat>
    decreases f
  {
    if f == [] then [] else [f[0].index] + Preorder(f[0].children) + Preorder(f[1..])
  }

  function Range(i: nat, j: nat): (r: seq<nat>)
    requires i <= j
    ensures |r| == j - i
    ensures forall k :: 0 <= k < j - i ==> r[k] == i + k
  {
    seq(j - i, k requires 0 <= k < j - i => i + k)
  }

  /** Parsing visits the indices it reads in order, each once. */
  lemma {:induction false} ParsePreorder(levels: seq<nat>, i: nat, bound: int)
    requires i <= |levels|
    ensures Preorder(Parse(levels, i, bound).0) == Range(i, Parse(levels, i, bound).1)
    decreases |levels| - i
  {
    if !(i == |levels| || levels[i] <= bound) {
      var pk := Parse(levels, i + 1, levels[i]);
      var ps := Parse(levels, pk.1, bound);
      assert Parse(levels, i, bound) == ([Tree(i, pk.0)] + ps.0, ps.1);
      ParsePreorder(levels, i + 1, levels[i]);
      ParsePreorder(levels, pk.1, bound);
      var f := [Tree(i, pk.0)] + ps.0;
      assert f[0] == Tree(i, pk.0) && f[1..] == ps.0;
      assert Preorder(f) == [i] + Range(i + 1, pk.1) + Range(pk.1, ps.1);
      RangeConcat(i, pk.1, ps.1);
    }
  }

  lemma RangeConcat(i: nat, j: nat, e: nat)
    requires i < j <= e
    ensures [i] + Range(i + 1, j) + Range(j, e) == Range(i, e)
  {
  }

  /** Every node of `f` has parent `p` in `parent`, and so on down the tree. */
  predicate LinkedTo(f: seq<Tree>, p: int, parent: seq<int>)
    decreases f
  {
    f == [] ||
    (&& f[0].index < |parent| && parent[f[0].index] == p
     && LinkedTo(f[0].children, f[0].index, parent)
     && LinkedTo(f[1..], p, parent))
  }

  lemma {:induction false} LastBelowIs(levels: seq<nat>, i: nat, bound: nat, q: int)
    requires i <= |levels| && -1 <= q < i
    requires q >= 0 ==> levels[q] < bound
    requires forall k :: q < k < i ==> levels[k] >= bound
    ensures LastBelow(levels, i, bound) == q
  {
    if q < i - 1 {
      LastBelowIs(levels, i - 1, bound, q);
    }
  }

  /** Parsing with enclosing node `q` attaches each node to the most recent earlier node of a
      smaller level, which is what the predecessor table computes. */
  lemma {:induction false} ParseLinks(levels: seq<nat>, parent: seq<int>, i: nat, bound: int, q: int)
    requires i <= |levels| && |parent| == |levels|
    requires forall k :: 0 <= k < |levels| ==> parent[k] == ParentOf(levels, k)
    requires -1 <= q < i
    requires if q == -1 then bound == -1 else bound == levels[q]
    requires i < |levels| ==> forall k :: q < k < i ==> levels[k] >= levels[i]
    ensures LinkedTo(Parse(levels, i, bound).0, q, parent)
    decreases |levels| - i
  {
    if !(i == |levels| || levels[i] <= bound) {
      var pk := Parse(levels, i + 1, levels[i]);
      var j := pk.1;
      var ps := Parse(levels, j, bound);
      assert Parse(levels, i, bound) == ([Tree(i, pk.0)] + ps.0, ps.1);
      LastBelowIs(levels, i, levels[i], q);
      ParseLinks(levels, parent, i + 1, levels[i], i);
      assert j < |levels| ==> levels[j] <= levels[i];
      assert forall k :: i < k < j ==> levels[k] > levels[i];
      ParseLinks(levels, parent, j, bound, q);
      var f := [Tree(i, pk.0)] + ps.0;
      assert f[0] == Tree(i, pk.0) && f[1..] == ps.0;
    }
  }

  predicate Bounded(f: seq<Tree>, n: nat)
    decreases f
  {
    f == [] || (f[0].index < n && Bounded(f[0].children, n) && Bounded(f[1..], n))
  }

  lemma {:induction false} BoundedByPreorder(f: seq<Tree>, n: nat)
    requires forall k :: 0 <= k < |Preorder(f)| ==> Preorder(f)[k] < n
    ensures Bounded(f, n)
    decreases f
  {
    if f != [] {
      var a, b := Preorder(f[0].children), Preorder(f[1..]);
      assert Preorder(f) == [f[0].index] + a + b;
      assert Preorder(f)[0] == f[0].index;
      assert forall k :: 0 <= k < |a| ==> a[k] == Preorder(f)[1 + k];
      assert forall k :: 0 <= k < |b| ==> b[k] == Preorder(f)[1 + |a| + k];
      BoundedByPreorder(f[0].children, n);
      BoundedByPreorder(f[1..], n);
    }
  }

  /** The forest covers every section once in index order, and links each to its predecessor-table parent. */
  lemma ForestShape(levels: seq<nat>, parent: seq<int>)
    requires |parent| == |levels|
    requires forall k :: 0 <= k < |levels| ==> parent[k] == ParentOf(levels, k)
    ensures Parse(levels, 0, -1).1 == |levels|
    ensures Preorder(Forest(levels)) == Range(0, |levels|)
    ensures Bounded(Forest(levels), |levels|)
    ensures LinkedTo(Forest(levels), -1, parent)
  {
    ParsePreorder(levels, 0, -1);
    BoundedByPreorder(Forest(levels), |levels|);
    ParseLinks(levels, parent, 0, -1, -1);
  }

  /** Puts the items on the shape. */
  function Label(f: seq<Tree>, items: seq<Item>): seq<Node>
    requires Bounded(f, |items|)
    decreases f
  {
    if f == [] then [] else [Node(items[f[0].index], Label(f[0].children, items))] + Label(f[1..], items)
  }

  /** The items of a forest in pre-order. */
  function PreorderItems(nodes: seq<Node>): seq<Item>
    decreases nodes
  {
    if nodes == [] then [] else [nodes[0].item] + PreorderItems(nodes[0].children) + PreorderItems(nodes[1..])
  }

  lemma {:induction false} LabelPreorder(f: seq<Tree>, items: seq<Item>)
    requires Bounded(f, |items|)
    ensures |PreorderItems(Label(f, items))| == |Preorder(f)|
    ensures forall k :: 0 <= k < |Preorder(f)| ==>
              (Preorder(f)[k] < |items| && PreorderItems(Label(f, items))[k] == items[Preorder(f)[k]])
    decreases f
  {
    if f != [] {
      LabelPreorder(f[0].children, items);
      LabelPreorder(f[1..], items);
      var nodes := Label(f, items);
      assert nodes[0].children == Label(f[0].children, items);
      assert nodes[1..] == Label(f[1..], items);
    }
  }

  /** The labelled forest lists the items in their original order. */
  lemma LabelledForest(levels: seq<nat>, parent: seq<int>, items: seq<Item>)
    requires |parent| == |levels| == |items|
    requires forall k :: 0 <= k < |levels| ==> parent[k] == ParentOf(levels, k)
    ensures Bounded(Forest(levels), |items|)
    ensures LinkedTo(Forest(levels), -1, parent)
    ensures PreorderItems(Label(Forest(levels), items)) == items
  {
    ForestShape(levels, parent);
    LabelPreorder(Forest(levels), items);
  }

  /** One step of the predecessor table: node `i` takes the latest node of a smaller level as
      its parent, then becomes the latest node of every deeper level. */
  method LinkNext(predecessor: array<int>, levels: seq<nat>, i: nat) returns (p: int)
    requires predecessor.Length == 8 && i < |levels| && levels[i] < 8
    requires forall l :: 0 <= l < 8 ==> predecessor[l] == LastBelow(levels, i, l)
    modifies predecessor
    ensures p == ParentOf(levels, i)
    ensures forall l :: 0 <= l < 8 ==> predecessor[l] == LastBelow(levels, i + 1, l)
  {
    var level := levels[i];
    p := predecessor[level];
    for l := level + 1 to 8
      invariant forall m :: 0 <= m < 8 ==> predecessor[m] == if level < m < l then i else LastBelow(levels, i, m)
    {
      predecessor[l] := i;
    }
  }

  /** The loop of the nesting stage: every section gets its item, and its parent from the
      8-slot predecessor table. */
  method LinkSections(sections: seq<Section>) returns (nodesInLine: seq<Item>, parent: seq<int>)
    requires forall i :: 0 <= i < |sections| ==> LevelOf(sections[i].block.kind).Some?
    ensures nodesInLine == ItemsOf(sections)
    ensures |parent| == |sections|
    ensures forall i :: 0 <= i < |sections| ==> parent[i] == ParentOf(LevelsOf(sections), i)
  {
    var levels := LevelsOf(sections);
    var predecessor := new int[8][-1, -1, -1, -1, -1, -1, -1, -1];
    parent, nodesInLine := [], [];
    for i := 0 to |sections|
      invariant nodesInLine == ItemsOf(sections)[..i]
      invariant parent == Parents(levels)[..i]
      invariant forall l :: 0 <= l < 8 ==> predecessor[l] == LastBelow(levels, i, l)
    {
      var p := LinkNext(predecessor, levels, i);
      PrefixStep(Parents(levels), i);
      PrefixStep(ItemsOf(sections), i);
      parent := parent + [p];
      nodesInLine := nodesInLine + [ItemOf(sections[i])];
    }
    assert ItemsOf(sections)[..|sections|] == ItemsOf(sections);
    assert Parents(levels)[..|sections|] == Parents(levels);
  }

  /** The nesting stage of `update_items`: the forest whose parent links are the predecessor
      table's answers; `nodes_in_line` lists its items in pre-order. */
  method BuildForest(sections: seq<Section>) returns (nodes: seq<Node>, nodesInLine: seq<Item>, parent: seq<int>)
    requires forall i :: 0 <= i < |sections| ==> LevelOf(sections[i].block.kind).Some?
    ensures nodesInLine == ItemsOf(sections)
    ensures |parent| == |sections|
    ensures forall i :: 0 <= i < |sections| ==> parent[i] == ParentOf(LevelsOf(sections), i)
    ensures Bounded(Forest(LevelsOf(sections)), |nodesInLine|)
    ensures LinkedTo(Forest(LevelsOf(sections)), -1, parent)
    ensures nodes == Label(Forest(LevelsOf(sections)), nodesInLine)
    ensures PreorderItems(nodes) == nodesInLine
  {
    nodesInLine, parent := LinkSections(sections);
    LabelledForest(LevelsOf(sections), parent, nodesInLine);
    nodes := Label(Forest(LevelsOf(sections)), nodesInLine);
  }

  // ---------------------------------------------------------------------------
  // Drawing rows and clicks

  /** A node as `draw_nodes` meets it: its depth in the forest and its item. */
  datatype Entry = Entry(depth: nat, item: Item)

  /** One row `draw_nodes` paints: its row number, its depth and the node's item. */
  datatype Row = Row(line: int, depth: nat, item: Item)

  /** The nodes of a forest in drawing order (pre-order), with their depths. */
  function Entries(nodes: seq<Node>, depth: nat): seq<Entry>
    decreases nodes
  {
    if nodes == [] then []
    else [Entry(depth, nodes[0].item)] + Entries(nodes[0].children, depth + 1) + Entries(nodes[1..], depth)
  }

  /** The rows painted for `entries` numbered from `start`: those inside `[first, last]`. */
  function Shown(entries: seq<Entry>, start: int, first: int, last: int): seq<Row>
  {
    if entries == [] then []
    else
      (if first <= start <= last then [Row(start, entries[0].depth, entries[0].item)] else [])
      + Shown(entries[1..], start + 1, first, last)
  }

  lemma {:induction false} ShownAppend(a: seq<Entry>, b: seq<Entry>, start: int, first: int, last: int)
    ensures Shown(a + b, start, first, last) == Shown(a, start, first, last) + Shown(b, start + |a|, first, last)
  {
    if a == [] {
      assert a + b == b;
    } else {
      var h := if first <= start <= last then [Row(start, a[0].depth, a[0].item)] else [];
      assert (a + b)[0] == a[0];
      assert (a + b)[1..] == a[1..] + b;
      assert Shown(a + b, start, first, last) == h + Shown(a[1..] + b, start + 1, first, last);
      assert Shown(a, start, first, last) == h + Shown(a[1..], start + 1, first, last);
      ShownAppend(a[1..], b, start + 1, first, last);
      AppendAssoc(h, Shown(a[1..], start + 1, first, last), Shown(b, start + |a|, first, last));
    }
  }

  lemma {:induction false} EntriesAppend(a: seq<Node>, b: seq<Node>, depth: nat)
    ensures Entries(a + b, depth) == Entries(a, depth) + Entries(b, depth)
    decreases a
  {
    if a == [] {
      assert a + b == b;
    } else {
      assert (a + b)[0] == a[0];
      assert (a + b)[1..] == a[1..] + b;
      EntriesAppend(a[1..], b, depth);
    }
  }

  /** Drawing one more top-level node paints its own row and then its subtree's rows. */
  lemma DrawStep(nodes: seq<Node>, k: nat, depth: nat)
    requires k < |nodes|
    ensures Entries(nodes[..k + 1], depth) == Entries(nodes[..k], depth) + [Entry(depth, nodes[k].item)] + Entries(nodes[k].children, depth + 1)
  {
    var node := nodes[k];
    assert nodes[..k + 1] == nodes[..k] + [node];
    EntriesAppend(nodes[..k], [node], depth);
    assert [node][0] == node && [node][1..] == [];
  }

  lemma ShownStep(pre: seq<Entry>, e: Entry, sub: seq<Entry>, start: int, first: int, last: int)
    ensures var c := start + |pre|;
            Shown(pre + [e] + sub, start, first, last) ==
            Shown(pre, start, first, last) + (if first <= c <= last then [Row(c, e.depth, e.item)] else [])
            + Shown(sub, c + 1, first, last)
  {
    ShownAppend(pre, [e] + sub, start, first, last);
    ShownAppend([e], sub, start + |pre|, first, last);
    assert [e][0] == e && [e][1..] == [];
    assert pre + [e] + sub == pre + ([e] + sub);
  }

  /** `draw_nodes`: walks the forest in pre-order, paints the rows inside the window and
      returns the row counter advanced by the number of nodes. */
  method DrawNodes(nodes: seq<Node>, firstLine: int, lastLine: int, depth: nat, count: int)
    returns (newCount: int, drawn: seq<Row>)
    ensures newCount == count + |Entries(nodes, depth)|
    ensures drawn == Shown(Entries(nodes, depth), count, firstLine, lastLine)
    decreases nodes
  {
    newCount, drawn := count, [];
    for k := 0 to |nodes|
      invariant newCount == count + |Entries(nodes[..k], depth)|
      invariant drawn == Shown(Entries(nodes[..k], depth), count, firstLine, lastLine)
    {
      var node := nodes[k];
      ghost var pre := Entries(nodes[..k], depth);
      ghost var below := Entries(node.children, depth + 1);
      DrawStep(nodes, k, depth);
      ShownStep(pre, Entry(depth, node.item), below, count, firstLine, lastLine);
      ghost var own := if firstLine <= newCount <= lastLine then [Row(newCount, depth, node.item)] else [];
      if firstLine <= newCount <= lastLine {
        drawn := drawn + [Row(newCount, depth, node.item)];
      }
      assert drawn == Shown(pre, count, firstLine, lastLine) + own;
      newCount := newCount + 1;
      assert node in nodes;
      var sub, subDrawn := DrawNodes(node.children, firstLine, lastLine, depth + 1, newCount);
      assert |pre + [Entry(depth, node.item)] + below| == |pre| + 1 + |below|;
      newCount := sub;
      drawn := drawn + subDrawn;
    }
    assert nodes[..|nodes|] == nodes;
  }

  /** The drawing order is the pre-order of `nodes_in_line`. */
  lemma {:induction false} EntriesFollowPreorder(nodes: seq<Node>, depth: nat)
    ensures |Entries(nodes, depth)| == |PreorderItems(nodes)|
    ensures forall k :: 0 <= k < |PreorderItems(nodes)| ==> Entries(nodes, depth)[k].item == PreorderItems(nodes)[k]
    decreases nodes
  {
    if nodes != [] {
      EntriesFollowPreorder(nodes[0].children, depth + 1);
      EntriesFollowPreorder(nodes[1..], depth);
    }
  }

  /** Every entry whose row number falls inside the window is painted on that row. */
  lemma {:induction false} ShownComplete(entries: seq<Entry>, start: int, first: int, last: int)
    ensures forall k :: 0 <= k < |entries| && first <= start + k <= last ==>
              Row(start + k, entries[k].depth, entries[k].item) in Shown(entries, start, first, last)
  {
    if entries != [] {
      var h := if first <= start <= last then [Row(start, entries[0].depth, entries[0].item)] else [];
      var t := Shown(entries[1..], start + 1, first, last);
      assert Shown(entries, start, first, last) == h + t;
      ShownComplete(entries[1..], start + 1, first, last);
      forall k | 0 <= k < |entries| && first <= start + k <= last
        ensures Row(start + k, entries[k].depth, entries[k].item) in h + t
      {
        if k == 0 {
          assert h[0] == Row(start, entries[0].depth, entries[0].item);
        } else {
          assert entries[1..][k - 1] == entries[k];
          assert Row(start + 1 + (k - 1), entries[1..][k - 1].depth, entries[1..][k - 1].item) in t;
        }
      }
    }
  }

  /** Every painted row lies inside the window and shows the entry its row number names. */
  lemma {:induction false} ShownSound(entries: seq<Entry>, start: int, first: int, last: int)
    ensures forall r: Row :: r in Shown(entries, start, first, last) ==>
              first <= r.line <= last && 0 <= r.line - start < |entries| &&
              r == Row(r.line, entries[r.line - start].depth, entries[r.line - start].item)
  {
    if entries != [] {
      var h := if first <= start <= last then [Row(start, entries[0].depth, entries[0].item)] else [];
      var t := Shown(entries[1..], start + 1, first, last);
      assert Shown(entries, start, first, last) == h + t;
      ShownSound(entries[1..], start + 1, first, last);
      forall r: Row | r in h + t
        ensures first <= r.line <= last && 0 <= r.line - start < |entries| &&
                r == Row(r.line, entries[r.line - start].depth, entries[r.line - start].item)
      {
        if r in t {
          assert entries[1..][r.line - (start + 1)] == entries[r.line - start];
        } else {
          assert r in h;
        }
      }
    }
  }

  /** The clicked row index: `max(0, min((y - 9) // line_height, len(nodes_in_line) - 1))`. */
  function ClickedRow(y: real, lineHeight: nat, n: nat): (r: int)
    requires lineHeight > 0
    ensures 0 <= r
    ensures n > 0 ==> r < n
    ensures n == 0 ==> r == 0
    ensures var row := ((y - 9.0) / lineHeight as real).Floor; 0 <= row < n ==> r == row
  {
    Max(0, Min(((y - 9.0) / lineHeight as real).Floor, n - 1))
  }

  /** What a button press in the sidebar leads to. `RowMissing` stands for the `IndexError`
      Python raises on an empty `nodes_in_line` (the view is hidden then). */
  datatype Click = Ignored | RowMissing | Navigate(document: DocId, line: nat) | OpenFile(filename: string, line: nat)

  /** The view's height: 33 pixels of padding plus one line per node, or 0 when there are none. */
  function ViewHeight(n: nat, lineHeight: nat): (h: nat)
    requires lineHeight > 0
    ensures h == 0 <==> n == 0
    ensures n > 0 ==> h == n * lineHeight + 33
  {
    if n == 0 then 0 else n * lineHeight + 33
  }

  /** The sections of the outline `update_items` builds. */
  function OutlineSections(root: seq<Block>, rootDoc: DocId, includes: seq<Include>, blocksOf: DocId -> seq<Block>): (r: seq<Section>)
    ensures forall i :: 0 <= i < |r| ==> LevelOf(r[i].block.kind).Some?
  {
    MergedOwned(root, rootDoc, includes, blocksOf);
    SectionsOf(Merged(root, rootDoc, includes, blocksOf))
  }

  class StructureSection {
    const lineHeight: nat
    var nodes: seq<Node>
    var nodesInLine: seq<Item>
    var height: int

    constructor (lineHeight: nat)
      requires lineHeight > 0
      ensures this.lineHeight == lineHeight && nodes == [] && nodesInLine == [] && height == 0
    {
      this.lineHeight := lineHeight;
      nodes, nodesInLine, height := [], [], 0;
    }

    /** `update_items`: merge, filter, nest, and size the view. */
    method UpdateItems(root: seq<Block>, rootDoc: DocId, includes: seq<Include>, blocksOf: DocId -> seq<Block>)
      requires lineHeight > 0
      modifies this
      ensures nodesInLine == ItemsOf(OutlineSections(root, rootDoc, includes, blocksOf))
      ensures Bounded(Forest(LevelsOf(OutlineSections(root, rootDoc, includes, blocksOf))), |nodesInLine|)
      ensures nodes == Label(Forest(LevelsOf(OutlineSections(root, rootDoc, includes, blocksOf))), nodesInLine)
      ensures PreorderItems(nodes) == nodesInLine
      ensures height == ViewHeight(|nodesInLine|, lineHeight)
    {
      var blocks := MergeBlocks(root, rootDoc, includes, blocksOf);
      MergedOwned(root, rootDoc, includes, blocksOf);
      var sections := FilterSections(blocks);
      var secs := Values(sections);
      assert secs == OutlineSections(root, rootDoc, includes, blocksOf);
      var ns, items, parent := BuildForest(secs);
      height := ViewHeight(|items|, lineHeight);
      nodesInLine := items;
      nodes := ns;
    }

    /** `on_button_press`: a plain left click selects the row under the pointer. */
    method OnButtonPress(isButtonPress: bool, button: int, state: bv32, modifierMask: bv32, y: real)
      returns (outcome: Click)
      requires lineHeight > 0
      ensures !(isButtonPress && button == 1 && state & modifierMask == 0) <==> outcome == Ignored
      ensures outcome == RowMissing <==> (isButtonPress && button == 1 && state & modifierMask == 0 && nodesInLine == [])
      ensures outcome.Navigate? ==>
                var item := nodesInLine[ClickedRow(y, lineHeight, |nodesInLine|)];
                item.document == Some(outcome.document) && item.line == outcome.line
      ensures outcome.OpenFile? ==>
                var item := nodesInLine[ClickedRow(y, lineHeight, |nodesInLine|)];
                item.document == None && item.title == outcome.filename && item.line == outcome.line
    {
      if !(isButtonPress && button == 1 && state & modifierMask == 0) {
        return Ignored;
      }
      var itemNum := ClickedRow(y, lineHeight, |nodesInLine|);
      if itemNum >= |nodesInLine| {
        return RowMissing;
      }
      var item := nodesInLine[itemNum];
      if item.document == None {
        outcome := OpenFile(item.title, item.line);
      } else {
        outcome := Navigate(item.document.value, item.line);
      }
    }
  }
}
