/** The older rewriter of `pglite-manipulate/src/rewrite_source_globals.rs`.
    Its `condense_rewrites` is the same as the one in `RewriteGlobals`; its
    `apply` is not: the cursor moves on by each rewrite's length alone,
    never to the end of the replaced range. Its insertion rule puts
    `__thread ` at the very start of every variable declaration under the
    source root, constants included. */
module RewriteSourceGlobals {
  import opened Common
  import RG = RewriteGlobals

  // ---------------------------------------------------------------------
  // apply, as written

  /** `Σ length_i`: where the cursor of `apply` stands after the rewrites. */
  function Total(rewrites: seq<RG.Rewrite>): nat {
    if rewrites == [] then 0 else rewrites[0].length + Total(rewrites[1..])
  }

  /** Every `&source[cursor..offset]` the loop takes is legal, the cursor
      starting at `cursor` and moving on by each length. */
  predicate PiecesFit(source: Bytes, cursor: nat, rewrites: seq<RG.Rewrite>)
    decreases |rewrites|
  {
    rewrites == []
    || (RG.SliceOk(source, cursor, rewrites[0].offset)
        && PiecesFit(source, cursor + rewrites[0].length, rewrites[1..]))
  }

  /** What the loop appends to `out`: `source[c0..o1] + t1 + source[c1..o2] + t2
      + ...` where `c_i` is the cursor before rewrite `i + 1`. */
  function Emitted(source: Bytes, cursor: nat, rewrites: seq<RG.Rewrite>): Bytes
    requires PiecesFit(source, cursor, rewrites)
    decreases |rewrites|
  {
    if rewrites == [] then []
    else
      var rw := rewrites[0];
      source[cursor..rw.offset] + rw.text + Emitted(source, cursor + rw.length, rewrites[1..])
  }

  /** Running the loop over `a` then over `b` is running it over `a + b`. */
  lemma {:induction false} PiecesAppend(source: Bytes, cursor: nat, a: seq<RG.Rewrite>, b: seq<RG.Rewrite>)
    ensures Total(a + b) == Total(a) + Total(b)
    ensures PiecesFit(source, cursor, a + b) <==> PiecesFit(source, cursor, a) && PiecesFit(source, cursor + Total(a), b)
    ensures PiecesFit(source, cursor, a + b) ==>
              Emitted(source, cursor, a + b) == Emitted(source, cursor, a) + Emitted(source, cursor + Total(a), b)
    decreases |a|
  {
    if a == [] {
      assert a + b == b;
    } else {
      assert (a + b)[0] == a[0] && (a + b)[1..] == a[1..] + b;
      PiecesAppend(source, cursor + a[0].length, a[1..], b);
    }
  }

  /** `apply` of `pglite-manipulate`. A slice that would panic ends the run
      with None. */
  method Apply(source: Bytes, rewrites: seq<RG.Rewrite>) returns (out: Option<Bytes>)
    ensures out.Some? <==> PiecesFit(source, 0, rewrites) && RG.SliceOk(source, Total(rewrites), |source|)
    ensures out.Some? ==> out.value == Emitted(source, 0, rewrites) + source[Total(rewrites)..]
    ensures rewrites == [] ==> out == Some(source)
  {
    var acc: Bytes := [];
    var cursor: nat := 0;
    var i := 0;
    while i < |rewrites|
      invariant 0 <= i <= |rewrites|
      invariant cursor == Total(rewrites[..i])
      invariant PiecesFit(source, 0, rewrites[..i])
      invariant acc == Emitted(source, 0, rewrites[..i])
    {
      var rw := rewrites[i];
      if !RG.SliceOk(source, cursor, rw.offset) {
        StopsAt(source, rewrites, i);
        return None;
      }
      StepsOver(source, rewrites, i);
      acc := acc + source[cursor..rw.offset];
      cursor := cursor + rw.length;
      acc := acc + rw.text;
      i := i + 1;
    }
    assert rewrites[..i] == rewrites;
    if !RG.SliceOk(source, cursor, |source|) {
      return None;
    }
    out := Some(acc + source[cursor..]);
    assert rewrites == [] ==> acc == [] && cursor == 0 && out.value == source;
  }

  /** One more turn of the loop: the cut before rewrite `i` is legal, so the
      loop emits it and the rewrite's text, and moves on by its length. */
  lemma StepsOver(source: Bytes, rewrites: seq<RG.Rewrite>, i: nat)
    requires i < |rewrites| && PiecesFit(source, 0, rewrites[..i])
    requires RG.SliceOk(source, Total(rewrites[..i]), rewrites[i].offset)
    ensures PiecesFit(source, 0, rewrites[..i + 1])
    ensures Total(rewrites[..i + 1]) == Total(rewrites[..i]) + rewrites[i].length
    ensures Emitted(source, 0, rewrites[..i + 1])
            == Emitted(source, 0, rewrites[..i]) + source[Total(rewrites[..i])..rewrites[i].offset] + rewrites[i].text
  {
    var rw := rewrites[i];
    PiecesAppend(source, 0, rewrites[..i], [rw]);
    assert rewrites[..i + 1] == rewrites[..i] + [rw];
    PiecesAppend(source, Total(rewrites[..i]), [rw], []);
    assert [rw] + [] == [rw];
  }

  /** The cut before rewrite `i` panics, so the whole list does not fit. */
  lemma StopsAt(source: Bytes, rewrites: seq<RG.Rewrite>, i: nat)
    requires i < |rewrites| && PiecesFit(source, 0, rewrites[..i])
    requires !RG.SliceOk(source, Total(rewrites[..i]), rewrites[i].offset)
    ensures !PiecesFit(source, 0, rewrites)
  {
    var rw := rewrites[i];
    PiecesAppend(source, 0, rewrites[..i], [rw]);
    assert rewrites[..i + 1] == rewrites[..i] + [rw];
    PiecesAppend(source, 0, rewrites[..i + 1], rewrites[i + 1..]);
    assert rewrites[..i + 1] + rewrites[i + 1..] == rewrites;
  }

  /** The loop does not panic exactly when each rewrite starts at or after
      the sum of the lengths before it, and the cuts lie on character
      boundaries inside the source. */
  lemma PiecesFitIff(source: Bytes, cursor: nat, rewrites: seq<RG.Rewrite>)
    ensures PiecesFit(source, cursor, rewrites) <==> CutsInOrder(source, cursor, rewrites)
  {
    if PiecesFit(source, cursor, rewrites) {
      PiecesFitCuts(source, cursor, rewrites);
    }
    if CutsInOrder(source, cursor, rewrites) {
      CutsPiecesFit(source, cursor, rewrites);
    }
  }

  /** Rewrite `i` starts at or after the sum of the lengths before it, and
      both cuts lie on character boundaries inside the source. */
  predicate CutsInOrder(source: Bytes, cursor: nat, rewrites: seq<RG.Rewrite>) {
    forall i | 0 <= i < |rewrites| :: RG.SliceOk(source, cursor + Total(rewrites[..i]), rewrites[i].offset)
  }

  lemma {:induction false} PiecesFitCuts(source: Bytes, cursor: nat, rewrites: seq<RG.Rewrite>)
    requires PiecesFit(source, cursor, rewrites)
    ensures CutsInOrder(source, cursor, rewrites)
    decreases |rewrites|
  {
    if rewrites != [] {
      var rw, rest := rewrites[0], rewrites[1..];
      PiecesFitCuts(source, cursor + rw.length, rest);
      forall i | 0 <= i < |rewrites|
        ensures RG.SliceOk(source, cursor + Total(rewrites[..i]), rewrites[i].offset)
      {
        if i == 0 {
          assert rewrites[..0] == [];
        } else {
          TotalPrefix(rewrites, i);
          assert RG.SliceOk(source, cursor + rw.length + Total(rest[..i - 1]), rest[i - 1].offset);
        }
      }
    }
  }

  lemma {:induction false} CutsPiecesFit(source: Bytes, cursor: nat, rewrites: seq<RG.Rewrite>)
    requires CutsInOrder(source, cursor, rewrites)
    ensures PiecesFit(source, cursor, rewrites)
    decreases |rewrites|
  {
    if rewrites != [] {
      var rw, rest := rewrites[0], rewrites[1..];
      assert rewrites[..0] == [];
      assert RG.SliceOk(source, cursor + Total(rewrites[..0]), rewrites[0].offset);
      forall i | 0 <= i < |rest|
        ensures RG.SliceOk(source, cursor + rw.length + Total(rest[..i]), rest[i].offset)
      {
        TotalPrefix(rewrites, i + 1);
        assert RG.SliceOk(source, cursor + Total(rewrites[..i + 1]), rewrites[i + 1].offset);
      }
      CutsPiecesFit(source, cursor + rw.length, rest);
    }
  }

  /** The lengths before rewrite `i` are the first length and the lengths
      of the rest before it. */
  lemma TotalPrefix(rewrites: seq<RG.Rewrite>, i: nat)
    requires 0 < i <= |rewrites|
    ensures Total(rewrites[..i]) == rewrites[0].length + Total(rewrites[1..][..i - 1])
  {
    assert rewrites[..i][0] == rewrites[0];
    assert rewrites[..i][1..] == rewrites[1..][..i - 1];
  }

  /** With insertions only, the cursor never leaves 0: each insertion is
      preceded by the whole prefix of the source up to its offset. */
  lemma {:induction false} InsertionsRestartAtZero(source: Bytes, rewrites: seq<RG.Rewrite>)
    requires forall i | 0 <= i < |rewrites| :: rewrites[i].length == 0
    ensures Total(rewrites) == 0
    ensures PiecesFit(source, 0, rewrites) ==>
              && (forall i | 0 <= i < |rewrites| :: rewrites[i].offset <= |source|)
              && Emitted(source, 0, rewrites) == Prefixes(source, rewrites)
    decreases |rewrites|
  {
    if rewrites != [] {
      InsertionsRestartAtZero(source, rewrites[1..]);
    }
  }

  /** `source[..o1] + t1 + source[..o2] + t2 + ...`. */
  function Prefixes(source: Bytes, rewrites: seq<RG.Rewrite>): Bytes
    requires forall i | 0 <= i < |rewrites| :: rewrites[i].offset <= |source|
  {
    if rewrites == [] then []
    else source[..rewrites[0].offset] + rewrites[0].text + Prefixes(source, rewrites[1..])
  }

  /** A single insertion at offset `k` gives `source[..k] + text + source`
      here, where the `apply` of `RewriteGlobals` gives
      `source[..k] + text + source[k..]`: the prefix is written twice. */
  lemma AsWrittenDuplicatesPrefix(source: Bytes, k: nat, text: Bytes)
    requires k <= |source| && RG.IsCharBoundary(source, k)
    ensures var rws := [RG.Rewrite(k, 0, text)];
            && PiecesFit(source, 0, rws) && RG.SliceOk(source, Total(rws), |source|)
            && Emitted(source, 0, rws) + source[Total(rws)..] == source[..k] + text + source
            && RG.FitsFrom(source, 0, rws)
            && RG.SpliceFrom(source, 0, rws) == source[..k] + text + source[k..]
  {
    var rws := [RG.Rewrite(k, 0, text)];
    assert rws[0] == RG.Rewrite(k, 0, text) && rws[1..] == [];
    assert Total(rws) == 0;
    assert PiecesFit(source, 0, rws);
    assert Emitted(source, 0, rws) == source[0..k] + text;
    assert RG.FitsFrom(source, k, []);
    assert RG.FitsFrom(source, 0, rws);
    assert RG.SpliceFrom(source, 0, rws) == source[0..k] + text + source[k..];
    assert source[0..] == source && source[0..k] == source[..k];
  }

  /** The smallest case: inserting `X` after the `a` of `ab` gives `aXab`
      instead of `aXb`. */
  lemma AsWrittenCounterexample()
    ensures var source: Bytes := [0x61, 0x62];
            var rws := [RG.Rewrite(1, 0, [0x58])];
            && PiecesFit(source, 0, rws)
            && Emitted(source, 0, rws) + source[Total(rws)..] == [0x61, 0x58, 0x61, 0x62]
            && RG.FitsFrom(source, 0, rws)
            && RG.SpliceFrom(source, 0, rws) == [0x61, 0x58, 0x62]
  {
    var source: Bytes := [0x61, 0x62];
    AsWrittenDuplicatesPrefix(source, 1, [0x58]);
    assert source[..1] == [0x61] && source[1..] == [0x62];
  }

  // ---------------------------------------------------------------------
  // do_file: the insertion rule

  /** Where an entity is spelled: no location at all, a location without a
      file, or a file. */
  datatype Spelling = NoLocation | NoFile | InFile(path: Path)

  /** A file location: the file (None when libclang gives none) and the
      byte offset in it. */
  datatype FileLoc = FileLoc(file: Option<RG.Path>, offset: nat)

  datatype NodeKind = VarDecl | OtherNode

  /** An entity met by `visit_children`: its kind, where it is spelled, and
      the start of its source range (None when it has no range). */
  datatype Node = Node(kind: NodeKind, spelling: Spelling, rangeStart: Option<FileLoc>)

  type Path = RG.Path

  /** What the visitor pushes for one entity; None is a panic on one of its
      `unwrap`s. `underRoot` is `Path::starts_with(source_root)`. */
  function NodeRewrites(n: Node, underRoot: Path -> bool): (r: Option<seq<RG.FileRewrite>>)
    ensures r.None? ==> n.spelling.NoFile? || Considered(n, underRoot)
    ensures r.Some? ==> |r.value| == (if Considered(n, underRoot) then 1 else 0)
  {
    if n.spelling.NoFile? then None
    else if n.spelling.InFile? && !underRoot(n.spelling.path) then Some([])
    else if n.kind.OtherNode? then Some([])
    else match n.rangeStart
      case None => None
      case Some(FileLoc(file, offset)) =>
        match file
        case None => None
        case Some(path) => Some([RG.FileRewrite(path, RG.Rewrite(offset, 0, RG.ThreadKw))])
  }

  /** What `do_file` returns for the entities in visiting order; None when
      one of them panics. */
  function FileRewrites(nodes: seq<Node>, underRoot: Path -> bool): (r: Option<seq<RG.FileRewrite>>)
    ensures r.Some? ==> |r.value| <= |nodes|
    decreases |nodes|
  {
    if nodes == [] then Some([])
    else match FileRewrites(nodes[..|nodes| - 1], underRoot)
      case None => None
      case Some(done) =>
        match NodeRewrites(nodes[|nodes| - 1], underRoot)
        case None => None
        case Some(more) => Some(done + more)
  }

  /** `do_file` over the entities `visit_children` meets, in order. */
  method DoFile(nodes: seq<Node>, underRoot: Path -> bool) returns (r: Option<seq<RG.FileRewrite>>)
    ensures r == FileRewrites(nodes, underRoot)
  {
    var rewrites: seq<RG.FileRewrite> := [];
    var i := 0;
    while i < |nodes|
      invariant 0 <= i <= |nodes|
      invariant FileRewrites(nodes[..i], underRoot) == Some(rewrites)
    {
      var node := nodes[i];
      assert nodes[..i + 1][..i] == nodes[..i] && nodes[..i + 1][i] == node;
      if node.spelling.InFile? && !underRoot(node.spelling.path) {
        assert NodeRewrites(node, underRoot) == Some([]);
        assert rewrites + [] == rewrites;
        i := i + 1;
        continue;
      }
      if node.spelling.NoFile? {
        PanicSticks(nodes, i + 1, underRoot);
        return None;
      }
      if node.kind == VarDecl {
        if node.rangeStart.None? || node.rangeStart.value.file.None? {
          PanicSticks(nodes, i + 1, underRoot);
          return None;
        }
        var start := node.rangeStart.value;
        rewrites := rewrites + [RG.FileRewrite(start.file.value, RG.Rewrite(start.offset, 0, RG.ThreadKw))];
      } else {
        assert NodeRewrites(node, underRoot) == Some([]);
        assert rewrites + [] == rewrites;
      }
      i := i + 1;
    }
    assert nodes[..i] == nodes;
    r := Some(rewrites);
  }

  /** Once an entity has panicked, so has the whole file. */
  lemma {:induction false} PanicSticks(nodes: seq<Node>, j: nat, underRoot: Path -> bool)
    requires j <= |nodes| && FileRewrites(nodes[..j], underRoot).None?
    ensures FileRewrites(nodes, underRoot).None?
    decreases |nodes|
  {
    if j < |nodes| {
      var init := nodes[..|nodes| - 1];
      assert init[..j] == nodes[..j];
      PanicSticks(init, j, underRoot);
    } else {
      assert nodes[..j] == nodes;
    }
  }

  /** A variable declaration the visitor rewrites: not spelled in a file
      outside the source root. */
  predicate Considered(n: Node, underRoot: Path -> bool) {
    n.kind == VarDecl && !n.spelling.NoFile? && !(n.spelling.InFile? && !underRoot(n.spelling.path))
  }

  /** A declaration's range starts at a location in a file. */
  predicate HasStart(n: Node) {
    n.rangeStart.Some? && n.rangeStart.value.file.Some?
  }

  /** The rewrite the visitor pushes for a declaration: `__thread ` inserted
      at the start of its range, in the file of that start. */
  function StartInsertion(n: Node): RG.FileRewrite
    requires HasStart(n)
  {
    RG.FileRewrite(n.rangeStart.value.file.value, RG.Rewrite(n.rangeStart.value.offset, 0, RG.ThreadKw))
  }

  /** An entity the visitor gets past without a panic: it is spelled in a
      file or nowhere, and if it is a considered declaration its range
      starts in a file. */
  predicate NodeOk(n: Node, underRoot: Path -> bool) {
    !n.spelling.NoFile? && (Considered(n, underRoot) ==> HasStart(n))
  }

  /** What the visitor pushes for an entity it gets past: the start
      insertion of a considered declaration, nothing for anything else. */
  function InsertionOf(n: Node, underRoot: Path -> bool): seq<RG.FileRewrite>
    requires NodeOk(n, underRoot)
  {
    if Considered(n, underRoot) then [StartInsertion(n)] else []
  }

  /** No entity of the list makes the visitor panic. */
  predicate AllOk(nodes: seq<Node>, underRoot: Path -> bool) {
    forall j | 0 <= j < |nodes| :: NodeOk(nodes[j], underRoot)
  }

  lemma AllOkSplit(a: seq<Node>, b: seq<Node>, underRoot: Path -> bool)
    ensures AllOk(a + b, underRoot) <==> AllOk(a, underRoot) && AllOk(b, underRoot)
  {
    assert forall j | 0 <= j < |a| :: (a + b)[j] == a[j];
    assert forall j | 0 <= j < |b| :: (a + b)[|a| + j] == b[j];
  }

  /** The start insertions of the considered declarations, in visiting
      order: what `do_file` is meant to return. */
  function Insertions(nodes: seq<Node>, underRoot: Path -> bool): seq<RG.FileRewrite>
    requires AllOk(nodes, underRoot)
    decreases |nodes|
  {
    if nodes == [] then []
    else
      var n := |nodes|;
      assert NodeOk(nodes[n - 1], underRoot);
      assert nodes == nodes[..n - 1] + [nodes[n - 1]];
      AllOkSplit(nodes[..n - 1], [nodes[n - 1]], underRoot);
      Insertions(nodes[..n - 1], underRoot) + InsertionOf(nodes[n - 1], underRoot)
  }

  /** One entity panics exactly when it is not `NodeOk`, and otherwise
      pushes its insertion, if any. */
  lemma NodeOutcome(n: Node, underRoot: Path -> bool)
    ensures NodeRewrites(n, underRoot).Some? <==> NodeOk(n, underRoot)
    ensures NodeRewrites(n, underRoot).Some? ==> NodeRewrites(n, underRoot).value == InsertionOf(n, underRoot)
  {
  }

  /** `do_file` panics exactly when some entity has a spelling location
      without a file, or is a considered declaration whose range does not
      start in a file; otherwise it returns exactly the start insertions
      of the considered declarations, in visiting order. */
  lemma {:induction false} DoFileOutcome(nodes: seq<Node>, underRoot: Path -> bool)
    ensures FileRewrites(nodes, underRoot).Some? <==> AllOk(nodes, underRoot)
    ensures FileRewrites(nodes, underRoot).Some? ==> FileRewrites(nodes, underRoot).value == Insertions(nodes, underRoot)
    decreases |nodes|
  {
    if nodes != [] {
      var n := |nodes|;
      var init, last := nodes[..n - 1], nodes[n - 1];
      DoFileOutcome(init, underRoot);
      assert nodes == init + [last];
      AllOkSplit(init, [last], underRoot);
      assert AllOk([last], underRoot) <==> NodeOk(last, underRoot);
      NodeOutcome(last, underRoot);
    }
  }

  /** Every considered declaration gets exactly one zero-length insertion of
      `__thread ` at the start of its range, in its own file, whatever its
      type; nothing else is rewritten, and the insertions come in visiting
      order. */
  lemma {:induction false} OneInsertionPerDecl(nodes: seq<Node>, underRoot: Path -> bool)
    requires FileRewrites(nodes, underRoot).Some?
    ensures var rws := FileRewrites(nodes, underRoot).value;
            && (forall k | 0 <= k < |rws| :: rws[k].rewrite.length == 0 && rws[k].rewrite.text == RG.ThreadKw)
            && (forall j | 0 <= j < |nodes| && Considered(nodes[j], underRoot) ::
                  && nodes[j].rangeStart.Some? && nodes[j].rangeStart.value.file.Some?
                  && RG.FileRewrite(nodes[j].rangeStart.value.file.value,
                                    RG.Rewrite(nodes[j].rangeStart.value.offset, 0, RG.ThreadKw)) in rws)
            && |rws| == CountConsidered(nodes, underRoot)
    ensures AllOk(nodes, underRoot)
    ensures FileRewrites(nodes, underRoot).value == Insertions(nodes, underRoot)
  {
    DoFileOutcome(nodes, underRoot);
    OnlyInsertions(nodes, underRoot);
    EveryDeclInserted(nodes, underRoot);
    InsertionCount(nodes, underRoot);
    var rws := FileRewrites(nodes, underRoot).value;
    assert forall k | 0 <= k < |rws| :: ThreadInsertion(rws[k]);
  }

  /** The rewrites of one declaration that the visitor reaches. */
  predicate InsertedFor(n: Node, rws: seq<RG.FileRewrite>) {
    && n.rangeStart.Some? && n.rangeStart.value.file.Some?
    && RG.FileRewrite(n.rangeStart.value.file.value, RG.Rewrite(n.rangeStart.value.offset, 0, RG.ThreadKw)) in rws
  }

  /** A zero-length insertion of `__thread `. */
  predicate ThreadInsertion(fr: RG.FileRewrite) {
    fr.rewrite.length == 0 && fr.rewrite.text == RG.ThreadKw
  }

  lemma {:induction false} OnlyInsertions(nodes: seq<Node>, underRoot: Path -> bool)
    requires FileRewrites(nodes, underRoot).Some?
    ensures var rws := FileRewrites(nodes, underRoot).value;
            forall k | 0 <= k < |rws| :: ThreadInsertion(rws[k])
    decreases |nodes|
  {
    if nodes != [] {
      var n := |nodes|;
      var init := nodes[..n - 1];
      OnlyInsertions(init, underRoot);
      var done := FileRewrites(init, underRoot).value;
      var more := NodeRewrites(nodes[n - 1], underRoot).value;
      assert forall k | 0 <= k < |more| :: ThreadInsertion(more[k]);
      var rws := FileRewrites(nodes, underRoot).value;
      assert rws == done + more;
      forall k | 0 <= k < |rws| ensures ThreadInsertion(rws[k]) {
        if k < |done| {
          assert rws[k] == done[k];
        } else {
          assert rws[k] == more[k - |done|];
        }
      }
    }
  }

  lemma {:induction false} EveryDeclInserted(nodes: seq<Node>, underRoot: Path -> bool)
    requires FileRewrites(nodes, underRoot).Some?
    ensures forall j | 0 <= j < |nodes| && Considered(nodes[j], underRoot) ::
              InsertedFor(nodes[j], FileRewrites(nodes, underRoot).value)
    decreases |nodes|
  {
    if nodes != [] {
      var n := |nodes|;
      var init, last := nodes[..n - 1], nodes[n - 1];
      EveryDeclInserted(init, underRoot);
      var done := FileRewrites(init, underRoot).value;
      var more := NodeRewrites(last, underRoot).value;
      var rws := FileRewrites(nodes, underRoot).value;
      assert rws == done + more;
      forall j | 0 <= j < n && Considered(nodes[j], underRoot) ensures InsertedFor(nodes[j], rws) {
        if j < n - 1 {
          assert init[j] == nodes[j] && InsertedFor(init[j], done);
        } else {
          assert more[0] in rws;
        }
      }
    }
  }

  lemma {:induction false} InsertionCount(nodes: seq<Node>, underRoot: Path -> bool)
    requires FileRewrites(nodes, underRoot).Some?
    ensures |FileRewrites(nodes, underRoot).value| == CountConsidered(nodes, underRoot)
    decreases |nodes|
  {
    if nodes != [] {
      InsertionCount(nodes[..|nodes| - 1], underRoot);
    }
  }

  /** How many of the entities are considered declarations. */
  function CountConsidered(nodes: seq<Node>, underRoot: Path -> bool): nat
    decreases |nodes|
  {
    if nodes == [] then 0
    else CountConsidered(nodes[..|nodes| - 1], underRoot) + (if Considered(nodes[|nodes| - 1], underRoot) then 1 else 0)
  }

  /** The rewrites of this rule never conflict in `condense_rewrites`. */
  lemma NeverConflicts(nodes: seq<Node>, underRoot: Path -> bool)
    requires FileRewrites(nodes, underRoot).Some?
    ensures var rws := FileRewrites(nodes, underRoot).value;
            !RG.ConflictAmong(RG.Group(rws), RG.Group(rws).Keys)
  {
    OneInsertionPerDecl(nodes, underRoot);
    RG.ThreadInsertionsNeverConflict(FileRewrites(nodes, underRoot).value);
  }
}
