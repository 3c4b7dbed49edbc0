/** The relocation-chain rewriter of src/extract.rs: a singly linked list
    embedded in a payload buffer, each 4-byte node holding a big-endian u16
    `next` and a u16 `ptr`, both in 4-byte words. Walking the chain replaces
    every node by `ptr * 4` as a big-endian u32 and logs what was rewritten. */
module Relocation {
  import opened Bytes

  /** The raw `next` value 0xFFFF ends a chain; the walk compares the scaled offset. */
  const END: nat := 0xFFFF * 4

  /** Where a chain starts and, for a chain into other files, the ids of those
      files in chain order. */
  datatype RelocInfo = Internal(start: nat) | External(start: nat, files: seq<U16>)
  {
    /** `get_starting_offset`. */
    function StartingOffset(): (n: nat)
      ensures n == start
    {
      match this
      case Internal(o) => o
      case External(o, _) => o
    }

    /** `get_external_files`: only an external chain carries file ids. */
    function ExternalFiles(): (r: Option<seq<U16>>)
      ensures r.Some? <==> External?
      ensures r.Some? ==> r.value == files
    {
      match this
      case Internal(_) => None
      case External(_, ex) => Some(ex)
    }
  }

  /** One log entry `(file, &ptr, ptr)`: the file id the pointer refers to (0
      for an internal chain), the node's offset, and the absolute pointer. */
  datatype Reloc = Reloc(fid: U16, at: nat, ptr: U32)

  /** `s` after the node at `n` is rewritten: its 4 bytes become the big-endian
      u32 `4 * ptr`, where `ptr` is the node's second u16 before the write. */
  function Rewrite(s: seq<Byte>, n: nat): (s': seq<Byte>)
    requires n + 4 <= |s|
    ensures |s'| == |s|
  {
    s[..n] + U32Bytes(4 * BE16(s, n + 2)) + s[n + 4..]
  }

  /** The visited node offsets, the pointers written there, and the buffer
      after the walk. */
  datatype Walked = Walked(nodes: seq<nat>, ptrs: seq<U32>, buffer: seq<Byte>)

  /** The walk `write_relocations` performs, started at offset `n` of `s`, if
      it reaches the end marker within `fuel` nodes without reading past the
      buffer. Each node's `next` and `ptr` are read before the node is
      rewritten, and later nodes are read from the rewritten buffer. */
  function Walk(s: seq<Byte>, n: nat, fuel: nat): (w: Option<Walked>)
    ensures w.Some? ==> |w.value.nodes| == |w.value.ptrs| <= fuel && |w.value.buffer| == |s|
    decreases fuel
  {
    if n == END then Some(Walked([], [], s))
    else if fuel == 0 || n + 4 > |s| then None
    else
      var ptr := 4 * BE16(s, n + 2);
      match Walk(Rewrite(s, n), 4 * BE16(s, n), fuel - 1)
      case None => None
      case Some(w) => Some(Walked([n] + w.nodes, [ptr] + w.ptrs, w.buffer))
  }

  /** The file id logged for the `i`-th node: the `i`-th external id, or 0 once
      the list is exhausted or for an internal chain. */
  function FileIdAt(files: Option<seq<U16>>, i: nat): U16
  {
    if files.Some? && i < |files.value| then files.value[i] else 0
  }

  /** The log of a walk: one entry per visited node, in traversal order. */
  function Log(nodes: seq<nat>, ptrs: seq<U32>, files: Option<seq<U16>>): (log: seq<Reloc>)
    requires |nodes| == |ptrs|
    ensures |log| == |nodes|
  {
    seq(|nodes|, i requires 0 <= i < |nodes| => Reloc(FileIdAt(files, i), nodes[i], ptrs[i]))
  }

  /** The file ids of a log, in order. */
  function Fids(log: seq<Reloc>): (ids: seq<U16>)
    ensures |ids| == |log|
  {
    if log == [] then [] else [log[0].fid] + Fids(log[1..])
  }

  /** The ids a walk of `count` nodes logs: the external list up to its end,
      or to the last node, followed by zeros; only zeros for an internal chain. */
  lemma {:induction false} LogFids(nodes: seq<nat>, ptrs: seq<U32>, files: Option<seq<U16>>)
    requires |nodes| == |ptrs|
    ensures files.None? ==> Fids(Log(nodes, ptrs, files)) == seq(|nodes|, _ => 0)
    ensures files.Some? && |nodes| <= |files.value| ==>
      Fids(Log(nodes, ptrs, files)) == files.value[..|nodes|]
    ensures files.Some? && |files.value| <= |nodes| ==>
      Fids(Log(nodes, ptrs, files)) == files.value + seq(|nodes| - |files.value|, _ => 0)
  {
    var log := Log(nodes, ptrs, files);
    FidsAt(log);
    if files.None? {
      assert Fids(log) == seq(|nodes|, _ => 0);
    } else if |nodes| <= |files.value| {
      assert Fids(log) == files.value[..|nodes|];
    } else {
      assert Fids(log) == files.value + seq(|nodes| - |files.value|, _ => 0);
    }
  }

  lemma {:induction false} FidsAt(log: seq<Reloc>)
    ensures forall i :: 0 <= i < |log| ==> Fids(log)[i] == log[i].fid
  {
    if log != [] {
      FidsAt(log[1..]);
    }
  }

  /** What is left of the external-id iterator after `k` nodes. */
  function Drop(files: Option<seq<U16>>, k: nat): Option<seq<U16>>
  {
    match files
    case None => None
    case Some(ex) => Some(if k <= |ex| then ex[k..] else [])
  }

  /** Part of the walk from `w0` is done: `nodes` and `ptrs` have been
      visited and written, `buf` is the buffer now, and the rest of the walk
      starts at `next` with `rem` fuel left. */
  ghost predicate Progress(w0: Walked, nodes: seq<nat>, ptrs: seq<U32>, buf: seq<Byte>, next: nat, rem: nat)
  {
    && Walk(buf, next, rem).Some?
    && var rest := Walk(buf, next, rem).value;
    && w0 == Walked(nodes + rest.nodes, ptrs + rest.ptrs, rest.buffer)
  }

  /** A node still to visit lies inside the buffer, and fuel is left for it. */
  lemma ProgressBounds(w0: Walked, nodes: seq<nat>, ptrs: seq<U32>, buf: seq<Byte>, next: nat, rem: nat)
    requires Progress(w0, nodes, ptrs, buf, next, rem) && next != END
    ensures rem > 0 && next + 4 <= |buf|
  {
  }

  /** One node further: the node at `next` has been rewritten into `buf'`,
      `next` and its pointer `ptr` have been recorded, and the walk continues
      at `next'` with one unit of fuel less. */
  lemma ProgressStep(w0: Walked, nodes: seq<nat>, ptrs: seq<U32>, buf: seq<Byte>, next: nat, rem: nat,
                     nodes': seq<nat>, ptrs': seq<U32>, buf': seq<Byte>, next': nat, rem': nat)
    requires Progress(w0, nodes, ptrs, buf, next, rem) && next != END && next + 4 <= |buf|
    requires buf' == Rewrite(buf, next) && next' == 4 * BE16(buf, next) && rem' == rem - 1
    requires nodes' == nodes + [next] && ptrs' == ptrs + [4 * BE16(buf, next + 2)]
    ensures Progress(w0, nodes', ptrs', buf', next', rem')
  {
    var rest := Walk(buf, next, rem).value;
    var after := Walk(buf', next', rem').value;
    assert rest == Walked([next] + after.nodes, [4 * BE16(buf, next + 2)] + after.ptrs, after.buffer);
    assert nodes + rest.nodes == nodes' + after.nodes;
    assert ptrs + rest.ptrs == ptrs' + after.ptrs;
  }

  /** At the end marker the whole walk has been done. */
  lemma ProgressEnd(w0: Walked, nodes: seq<nat>, ptrs: seq<U32>, buf: seq<Byte>, rem: nat)
    requires Progress(w0, nodes, ptrs, buf, END, rem)
    ensures w0 == Walked(nodes, ptrs, buf)
  {
    assert nodes + [] == nodes && ptrs + [] == ptrs;
  }

  /** The body of the `while` loop in `write_relocations`: read both fields
      of the node at `n`, then overwrite the node with `4 * ptr` as a
      big-endian u32. */
  method RewriteNode(file: array<Byte>, n: nat) returns (rawNext: U16, ptr: U32)
    requires n + 4 <= file.Length
    modifies file
    ensures rawNext == BE16(old(file[..]), n) && ptr == 4 * BE16(old(file[..]), n + 2)
    ensures file[..] == Rewrite(old(file[..]), n)
  {
    rawNext := file[n] as int * 0x100 + file[n + 1];
    var rawPtr: U16 := file[n + 2] as int * 0x100 + file[n + 3];
    ptr := rawPtr as int * 4;
    var bytes := U32Bytes(ptr);
    file[n] := bytes[0];
    file[n + 1] := bytes[1];
    file[n + 2] := bytes[2];
    file[n + 3] := bytes[3];
    assert file[..] == old(file[..])[..n] + bytes + old(file[..])[n + 4..];
  }

  /** The file-id step of `write_relocations` (`next()` on the optional
      iterator, `unwrap_or(0)`): take the next external file id, or 0 once
      the list is exhausted or when there is no list. */
  function TakeFileId(ex: Option<seq<U16>>): (U16, Option<seq<U16>>)
  {
    if ex.Some? && |ex.value| > 0 then (ex.value[0], Some(ex.value[1..])) else (0, ex)
  }

  lemma TakeFileIdDrop(files: Option<seq<U16>>, k: nat)
    ensures TakeFileId(Drop(files, k)) == (FileIdAt(files, k), Drop(files, k + 1))
  {
  }

  /** One iteration of the loop of `write_relocations`: the walk moves one
      node further, and the log gains that node with the next file id. */
  lemma WritingStep(w0: Walked, files: Option<seq<U16>>, nodes: seq<nat>, ptrs: seq<U32>, buf: seq<Byte>,
                    next: nat, rem: nat, relocations: seq<Reloc>, ex: Option<seq<U16>>,
                    nodes': seq<nat>, ptrs': seq<U32>, buf': seq<Byte>, next': nat, rem': nat,
                    relocations': seq<Reloc>, ex': Option<seq<U16>>)
    requires Progress(w0, nodes, ptrs, buf, next, rem) && next != END && next + 4 <= |buf|
    requires |nodes| == |ptrs| && relocations == Log(nodes, ptrs, files) && ex == Drop(files, |relocations|)
    requires buf' == Rewrite(buf, next) && next' == 4 * BE16(buf, next) && rem' == rem - 1
    requires nodes' == nodes + [next] && ptrs' == ptrs + [4 * BE16(buf, next + 2)]
    requires relocations' == relocations + [Reloc(TakeFileId(ex).0, next, 4 * BE16(buf, next + 2))]
    requires ex' == TakeFileId(ex).1
    ensures Progress(w0, nodes', ptrs', buf', next', rem')
    ensures |nodes'| == |ptrs'| && relocations' == Log(nodes', ptrs', files) && ex' == Drop(files, |relocations'|)
  {
    ProgressStep(w0, nodes, ptrs, buf, next, rem, nodes', ptrs', buf', next', rem');
    TakeFileIdDrop(files, |relocations|);
    LogSnoc(nodes, ptrs, next, 4 * BE16(buf, next + 2), files);
  }

  /** `write_relocations`. The source loop has no bound; `fuel` is a ghost
      bound on the number of nodes, and the precondition says the chain ends
      within it and stays inside the buffer (otherwise the source loops
      forever or panics). */
  method WriteRelocations(file: array<Byte>, reloc: RelocInfo, ghost fuel: nat) returns (relocations: seq<Reloc>)
    requires Walk(file[..], reloc.StartingOffset(), fuel).Some?
    modifies file
    ensures var w := Walk(old(file[..]), reloc.StartingOffset(), fuel).value;
            file[..] == w.buffer && relocations == Log(w.nodes, w.ptrs, reloc.ExternalFiles())
  {
    ghost var files := reloc.ExternalFiles();
    ghost var w0 := Walk(file[..], reloc.StartingOffset(), fuel).value;
    ghost var nodes: seq<nat> := [];
    ghost var ptrs: seq<U32> := [];
    ghost var rem := fuel;
    relocations := [];
    var ex := reloc.ExternalFiles();
    var next: nat := reloc.StartingOffset();
    assert nodes + w0.nodes == w0.nodes && ptrs + w0.ptrs == w0.ptrs;
    while next != END
      invariant Progress(w0, nodes, ptrs, file[..], next, rem)
      invariant |nodes| == |ptrs|
      invariant relocations == Log(nodes, ptrs, files)
      invariant ex == Drop(files, |relocations|)
      decreases rem
    {
      ProgressBounds(w0, nodes, ptrs, file[..], next, rem);
      ghost var before := (nodes, ptrs, file[..], next, rem, relocations, ex);
      var rawNext, ptr := RewriteNode(file, next);
      var taken := TakeFileId(ex);
      var fid := taken.0;
      ex := taken.1;
      relocations := relocations + [Reloc(fid, next, ptr)];
      nodes, ptrs := nodes + [next], ptrs + [ptr];
      next := rawNext as int * 4;
      rem := rem - 1;
      WritingStep(w0, files, before.0, before.1, before.2, before.3, before.4, before.5, before.6,
                  nodes, ptrs, file[..], next, rem, relocations, ex);
    }
    ProgressEnd(w0, nodes, ptrs, file[..], rem);
  }

  /** The log grows by one entry per node. */
  lemma LogSnoc(nodes: seq<nat>, ptrs: seq<U32>, n: nat, p: U32, files: Option<seq<U16>>)
    requires |nodes| == |ptrs|
    ensures Log(nodes + [n], ptrs + [p], files) == Log(nodes, ptrs, files) + [Reloc(FileIdAt(files, |nodes|), n, p)]
  {
  }

  /** Whether byte `i` lies in the 4-byte window of one of `nodes`. */
  ghost predicate Covered(nodes: seq<nat>, i: int)
  {
    exists k :: 0 <= k < |nodes| && nodes[k] <= i < nodes[k] + 4
  }

  /** Whether the 4-byte windows at `a` and `b` share a byte. */
  predicate Overlap(a: nat, b: nat)
  {
    a < b + 4 && b < a + 4
  }

  /** No two visited nodes share a byte. */
  ghost predicate Disjoint(nodes: seq<nat>)
  {
    forall i, j :: 0 <= i < j < |nodes| ==> !Overlap(nodes[i], nodes[j])
  }

  /** Rewriting a node changes its four bytes and no others, and those bytes
      then read back as the pointer `4 * ptr`. */
  lemma RewriteFrame(s: seq<Byte>, n: nat)
    requires n + 4 <= |s|
    ensures BE32(Rewrite(s, n), n) == 4 * BE16(s, n + 2)
    ensures forall i :: 0 <= i < |s| && !(n <= i < n + 4) ==> Rewrite(s, n)[i] == s[i]
  {
    var b := U32Bytes(4 * BE16(s, n + 2));
    var s' := Rewrite(s, n);
    assert s'[n..n + 4] == b;
    assert s'[n] == b[0] && s'[n + 1] == b[1] && s'[n + 2] == b[2] && s'[n + 3] == b[3];
  }

  /** The walk starts at `n` and is empty exactly when `n` is the end marker. */
  lemma WalkStart(s: seq<Byte>, n: nat, fuel: nat)
    requires Walk(s, n, fuel).Some?
    ensures var w := Walk(s, n, fuel).value;
      && (|w.nodes| == 0 <==> n == END)
      && (|w.nodes| > 0 ==> w.nodes[0] == n && w.ptrs[0] == 4 * BE16(s, n + 2))
  {
  }

  /** Every visited node lies inside the buffer and is not the end marker. */
  lemma {:induction false} WalkNodesInBounds(s: seq<Byte>, n: nat, fuel: nat)
    requires Walk(s, n, fuel).Some?
    ensures var w := Walk(s, n, fuel).value;
      forall k :: 0 <= k < |w.nodes| ==> w.nodes[k] != END && w.nodes[k] + 4 <= |s|
    decreases fuel
  {
    if n != END {
      var s1 := Rewrite(s, n);
      var rest := Walk(s1, 4 * BE16(s, n), fuel - 1).value;
      WalkNodesInBounds(s1, 4 * BE16(s, n), fuel - 1);
      var w := Walk(s, n, fuel).value;
      assert w.nodes == [n] + rest.nodes;
    }
  }

  /** Every logged pointer is a multiple of 4 and at most `4 * 0xFFFF`. */
  lemma {:induction false} WalkPtrsBounded(s: seq<Byte>, n: nat, fuel: nat)
    requires Walk(s, n, fuel).Some?
    ensures var w := Walk(s, n, fuel).value;
      forall k :: 0 <= k < |w.ptrs| ==> w.ptrs[k] % 4 == 0 && w.ptrs[k] <= 4 * 0xFFFF
    decreases fuel
  {
    if n != END {
      var s1 := Rewrite(s, n);
      var rest := Walk(s1, 4 * BE16(s, n), fuel - 1).value;
      WalkPtrsBounded(s1, 4 * BE16(s, n), fuel - 1);
      var w := Walk(s, n, fuel).value;
      ScaledWord(BE16(s, n + 2));
      assert w.ptrs == [4 * BE16(s, n + 2)] + rest.ptrs;
    }
  }

  /** A u16 count of words, scaled to bytes. */
  lemma ScaledWord(p: U16)
    ensures (4 * p) % 4 == 0 && 4 * p <= 4 * 0xFFFF
  {
  }

  /** A byte covered by the tail of a node list is covered by the whole list. */
  lemma CoveredTail(n: nat, rest: seq<nat>, i: int)
    ensures Covered(rest, i) ==> Covered([n] + rest, i)
  {
    if Covered(rest, i) {
      var k :| 0 <= k < |rest| && rest[k] <= i < rest[k] + 4;
      assert ([n] + rest)[k + 1] == rest[k];
    }
  }

  /** More fuel than the walk needs does not change it. */
  lemma {:induction false} WalkFuel(s: seq<Byte>, n: nat, fuel: nat, fuel': nat)
    requires Walk(s, n, fuel).Some? && fuel <= fuel'
    ensures Walk(s, n, fuel') == Walk(s, n, fuel)
    decreases fuel
  {
    if n != END {
      WalkFuel(Rewrite(s, n), 4 * BE16(s, n), fuel - 1, fuel' - 1);
    }
  }

  /** A byte outside every visited window keeps its value. */
  lemma {:induction false} WalkUnchangedOutside(s: seq<Byte>, n: nat, fuel: nat)
    requires Walk(s, n, fuel).Some?
    ensures var w := Walk(s, n, fuel).value;
      forall i :: 0 <= i < |s| && !Covered(w.nodes, i) ==> w.buffer[i] == s[i]
    decreases fuel
  {
    if n != END {
      var s1 := Rewrite(s, n);
      var rest := Walk(s1, 4 * BE16(s, n), fuel - 1).value;
      WalkUnchangedOutside(s1, 4 * BE16(s, n), fuel - 1);
      RewriteFrame(s, n);
      var w := Walk(s, n, fuel).value;
      assert w.nodes == [n] + rest.nodes && w.buffer == rest.buffer;
      forall i | 0 <= i < |s| && !Covered(w.nodes, i)
        ensures w.buffer[i] == s[i]
      {
        assert Covered(w.nodes, i) <== n <= i < n + 4 by {
          assert w.nodes[0] == n;
        }
        CoveredTail(n, rest.nodes, i);
      }
    }
  }

  /** A byte of a window that no node overlaps is covered by no node. */
  lemma NotCovered(m: nat, nodes: seq<nat>, i: int)
    requires forall j :: 0 <= j < |nodes| ==> !Overlap(nodes[j], m)
    requires m <= i < m + 4
    ensures !Covered(nodes, i)
  {
  }

  /** A node whose window no later node overlaps holds its pointer, as a
      big-endian u32, once the walk is over. */
  lemma {:induction false} WalkLastWrite(s: seq<Byte>, n: nat, fuel: nat, k: nat)
    requires Walk(s, n, fuel).Some?
    requires k < |Walk(s, n, fuel).value.nodes|
    requires var w := Walk(s, n, fuel).value;
      forall j :: k < j < |w.nodes| ==> !Overlap(w.nodes[j], w.nodes[k])
    ensures var w := Walk(s, n, fuel).value;
      w.nodes[k] + 4 <= |s| && BE32(w.buffer, w.nodes[k]) == w.ptrs[k]
    decreases fuel
  {
    var s1 := Rewrite(s, n);
    var next := 4 * BE16(s, n);
    var rest := Walk(s1, next, fuel - 1).value;
    var w := Walk(s, n, fuel).value;
    assert w.nodes == [n] + rest.nodes && w.ptrs == [4 * BE16(s, n + 2)] + rest.ptrs && w.buffer == rest.buffer;
    if k == 0 {
      forall j | 0 <= j < |rest.nodes|
        ensures !Overlap(rest.nodes[j], n)
      {
        assert w.nodes[j + 1] == rest.nodes[j];
      }
      HeadKept(s, n, fuel);
    } else {
      forall j | k - 1 < j < |rest.nodes|
        ensures !Overlap(rest.nodes[j], rest.nodes[k - 1])
      {
        assert w.nodes[j + 1] == rest.nodes[j];
      }
      WalkLastWrite(s1, next, fuel - 1, k - 1);
    }
  }

  /** The head node of a walk keeps its rewritten bytes when no later node overlaps it. */
  lemma HeadKept(s: seq<Byte>, n: nat, fuel: nat)
    requires fuel >= 1 && n != END && Walk(s, n, fuel).Some?
    requires var rest := Walk(Rewrite(s, n), 4 * BE16(s, n), fuel - 1);
      && rest.Some?
      && forall j :: 0 <= j < |rest.value.nodes| ==> !Overlap(rest.value.nodes[j], n)
    ensures n + 4 <= |s|
    ensures BE32(Walk(Rewrite(s, n), 4 * BE16(s, n), fuel - 1).value.buffer, n) == 4 * BE16(s, n + 2)
  {
    var s1 := Rewrite(s, n);
    var rest := Walk(s1, 4 * BE16(s, n), fuel - 1).value;
    RewriteFrame(s, n);
    WalkUnchangedOutside(s1, 4 * BE16(s, n), fuel - 1);
    forall i | n <= i < n + 4
      ensures rest.buffer[i] == s1[i]
    {
      NotCovered(n, rest.nodes, i);
    }
  }

  /** `nodes` and `ptrs` are the chain of `s` from `n`, read from the bytes of
      `s` alone: each node is in bounds and not the end marker, its pointer is
      4 times its second u16, the next node is 4 times its first u16, and the
      chain ends at the end marker. */
  ghost predicate ChainIn(s: seq<Byte>, n: nat, nodes: seq<nat>, ptrs: seq<U32>)
    decreases |nodes|
  {
    if |nodes| == 0 then |ptrs| == 0 && n == END
    else
      && |ptrs| == |nodes|
      && nodes[0] == n && n != END && n + 4 <= |s|
      && ptrs[0] == 4 * BE16(s, n + 2)
      && ChainIn(s, 4 * BE16(s, n), nodes[1..], ptrs[1..])
  }

  /** A chain reads only the windows of its nodes. */
  lemma {:induction false} ChainInFrame(s: seq<Byte>, t: seq<Byte>, n: nat, nodes: seq<nat>, ptrs: seq<U32>)
    requires ChainIn(s, n, nodes, ptrs) && |t| == |s|
    requires forall i :: 0 <= i < |s| && Covered(nodes, i) ==> t[i] == s[i]
    ensures ChainIn(t, n, nodes, ptrs)
    decreases |nodes|
  {
    if |nodes| > 0 {
      assert Covered(nodes, n) && Covered(nodes, n + 1) && Covered(nodes, n + 2) && Covered(nodes, n + 3);
      forall i | 0 <= i < |s| && Covered(nodes[1..], i)
        ensures t[i] == s[i]
      {
        var j :| 0 <= j < |nodes[1..]| && nodes[1..][j] <= i < nodes[1..][j] + 4;
        assert nodes[j + 1] == nodes[1..][j];
      }
      ChainInFrame(s, t, 4 * BE16(s, n), nodes[1..], ptrs[1..]);
    }
  }

  /** Dropping the first node keeps the windows disjoint. */
  lemma DisjointTail(nodes: seq<nat>)
    requires |nodes| > 0 && Disjoint(nodes)
    ensures Disjoint(nodes[1..])
    ensures forall i :: 0 <= i < |nodes| - 1 ==> !Overlap(nodes[0], nodes[1..][i])
  {
    forall i, j | 0 <= i < j < |nodes[1..]|
      ensures !Overlap(nodes[1..][i], nodes[1..][j])
    {
      assert nodes[1..][i] == nodes[i + 1] && nodes[1..][j] == nodes[j + 1];
    }
    forall i | 0 <= i < |nodes| - 1
      ensures !Overlap(nodes[0], nodes[1..][i])
    {
      assert nodes[1..][i] == nodes[i + 1];
    }
  }

  /** Rewriting a node whose window no node of a chain overlaps leaves that
      chain as it was. */
  lemma ChainInAfterRewrite(s: seq<Byte>, m: nat, n: nat, nodes: seq<nat>, ptrs: seq<U32>)
    requires ChainIn(s, n, nodes, ptrs) && m + 4 <= |s|
    requires forall i :: 0 <= i < |nodes| ==> !Overlap(m, nodes[i])
    ensures ChainIn(Rewrite(s, m), n, nodes, ptrs)
  {
    RewriteFrame(s, m);
    forall i | 0 <= i < |s| && Covered(nodes, i)
      ensures Rewrite(s, m)[i] == s[i]
    {
      var j :| 0 <= j < |nodes| && nodes[j] <= i < nodes[j] + 4;
      assert !Overlap(m, nodes[j]);
    }
    ChainInFrame(s, Rewrite(s, m), n, nodes, ptrs);
  }

  /** When no two visited windows overlap, every node and pointer the walk
      uses is the one stored in the original buffer: the rewriting never
      feeds back into the walk. */
  lemma {:induction false} WalkReadsOriginal(s: seq<Byte>, n: nat, fuel: nat)
    requires Walk(s, n, fuel).Some?
    requires Disjoint(Walk(s, n, fuel).value.nodes)
    ensures var w := Walk(s, n, fuel).value; ChainIn(s, n, w.nodes, w.ptrs)
    decreases fuel
  {
    var w := Walk(s, n, fuel).value;
    if n != END {
      var s1 := Rewrite(s, n);
      var next := 4 * BE16(s, n);
      var rest := Walk(s1, next, fuel - 1).value;
      assert w.nodes == [n] + rest.nodes && w.ptrs == [4 * BE16(s, n + 2)] + rest.ptrs;
      assert rest.nodes == w.nodes[1..] && rest.ptrs == w.ptrs[1..];
      DisjointTail(w.nodes);
      WalkReadsOriginal(s1, next, fuel - 1);
      RewriteFrame(s, n);
      forall i | 0 <= i < |s1| && Covered(rest.nodes, i)
        ensures s[i] == s1[i]
      {
        var j :| 0 <= j < |rest.nodes| && rest.nodes[j] <= i < rest.nodes[j] + 4;
        assert !Overlap(n, w.nodes[1..][j]);
      }
      ChainInFrame(s1, s, next, rest.nodes, rest.ptrs);
    }
  }

  /** Conversely, a chain of the original buffer whose windows do not overlap
      is walked to its end with one unit of fuel per node, visiting exactly
      its nodes and logging exactly its pointers. */
  lemma {:induction false} WalkOfChain(s: seq<Byte>, n: nat, nodes: seq<nat>, ptrs: seq<U32>)
    requires ChainIn(s, n, nodes, ptrs) && Disjoint(nodes)
    ensures Walk(s, n, |nodes|).Some?
    ensures Walk(s, n, |nodes|).value.nodes == nodes && Walk(s, n, |nodes|).value.ptrs == ptrs
    decreases |nodes|
  {
    if |nodes| > 0 {
      var next := 4 * BE16(s, n);
      DisjointTail(nodes);
      ChainInAfterRewrite(s, n, next, nodes[1..], ptrs[1..]);
      WalkOfChain(Rewrite(s, n), next, nodes[1..], ptrs[1..]);
      assert nodes == [n] + nodes[1..] && ptrs == [ptrs[0]] + ptrs[1..];
    }
  }

  /** The outcome for a chain of the original buffer with disjoint windows:
      each node's window holds its pointer and every other byte is as it was. */
  lemma ChainRewritten(s: seq<Byte>, n: nat, nodes: seq<nat>, ptrs: seq<U32>)
    requires ChainIn(s, n, nodes, ptrs) && Disjoint(nodes)
    ensures Walk(s, n, |nodes|).Some?
    ensures var b := Walk(s, n, |nodes|).value.buffer;
      && (forall k :: 0 <= k < |nodes| ==> nodes[k] + 4 <= |s| && BE32(b, nodes[k]) == ptrs[k])
      && (forall i :: 0 <= i < |s| && !Covered(nodes, i) ==> b[i] == s[i])
  {
    WalkOfChain(s, n, nodes, ptrs);
    WalkUnchangedOutside(s, n, |nodes|);
    forall k | 0 <= k < |nodes|
      ensures nodes[k] + 4 <= |s| && BE32(Walk(s, n, |nodes|).value.buffer, nodes[k]) == ptrs[k]
    {
      WalkLastWrite(s, n, |nodes|, k);
    }
  }

  /** The logs `relocate` returns, one per chain; absent when the entry has
      no such chain. */
  datatype FileReloc = FileReloc(internal: Option<seq<Reloc>>, external: Option<seq<Reloc>>)

  /** The buffer and the log after running the chain `reloc`, if there is one,
      over `s`; `None` when that walk does not finish within `fuel` nodes. */
  function RunChain(s: seq<Byte>, reloc: Option<RelocInfo>, fuel: nat): (r: Option<(seq<Byte>, Option<seq<Reloc>>)>)
    ensures reloc.None? ==> r == Some((s, None))
    ensures r.Some? ==> |r.value.0| == |s| && (r.value.1.Some? <==> reloc.Some?)
  {
    match reloc
    case None => Some((s, None))
    case Some(info) =>
      match Walk(s, info.StartingOffset(), fuel)
      case None => None
      case Some(w) => Some((w.buffer, Some(Log(w.nodes, w.ptrs, info.ExternalFiles()))))
  }

  /** `relocate`: the entry's internal chain is rewritten first and its
      external chain second, over the same buffer, and each produces its own
      log. */
  method Relocate(file: array<Byte>, inreloc: Option<RelocInfo>, exreloc: Option<RelocInfo>,
                  ghost inFuel: nat, ghost exFuel: nat) returns (relocs: FileReloc)
    requires RunChain(file[..], inreloc, inFuel).Some?
    requires RunChain(RunChain(file[..], inreloc, inFuel).value.0, exreloc, exFuel).Some?
    modifies file
    ensures var a := RunChain(old(file[..]), inreloc, inFuel).value;
            var b := RunChain(a.0, exreloc, exFuel).value;
            file[..] == b.0 && relocs == FileReloc(a.1, b.1)
  {
    relocs := FileReloc(None, None);
    if inreloc.Some? {
      var log := WriteRelocations(file, inreloc.value, inFuel);
      relocs := relocs.(internal := Some(log));
    }
    if exreloc.Some? {
      var log := WriteRelocations(file, exreloc.value, exFuel);
      relocs := relocs.(external := Some(log));
    }
  }

  /** A 20-byte buffer holding a two-node chain from offset 0: the node at 0
      links to word 4 (offset 0x10) with pointer word 0x10, and the node at
      0x10 ends the chain with pointer word 0x20. */
  const TwoNodeBuffer: seq<Byte> :=
    [0, 4, 0, 0x10, 0, 0, 0, 0, 0, 0, 0, 0, 0, 0, 0, 0, 0xFF, 0xFF, 0, 0x20]

  /** That chain visits 0 and 0x10 and writes the byte pointers 0x40 and 0x80
      in their place. */
  lemma TwoNodeWalk()
    ensures Walk(TwoNodeBuffer, 0, 2)
         == Some(Walked([0, 0x10], [0x40, 0x80],
                        [0, 0, 0, 0x40, 0, 0, 0, 0, 0, 0, 0, 0, 0, 0, 0, 0, 0, 0, 0, 0x80]))
  {
    var s := TwoNodeBuffer;
    var s1 := Rewrite(s, 0);
    var s2 := Rewrite(s1, 0x10);
    TwoNodeRewrites();
    assert Walk(s2, END, 0) == Some(Walked([], [], s2));
    assert [0x10] + [] == [0x10] && [0x80] + [] == [0x80];
    assert Walk(s1, 0x10, 1) == Some(Walked([0x10], [0x80], s2));
    assert [0] + [0x10] == [0, 0x10] && [0x40] + [0x80] == [0x40, 0x80];
  }

  /** The two rewrites of that walk, one node at a time. */
  lemma TwoNodeRewrites()
    ensures 4 * BE16(TwoNodeBuffer, 0) == 0x10 && 4 * BE16(TwoNodeBuffer, 2) == 0x40
    ensures var s1 := Rewrite(TwoNodeBuffer, 0);
      && s1 == [0, 0, 0, 0x40] + TwoNodeBuffer[4..]
      && 4 * BE16(s1, 0x10) == END && 4 * BE16(s1, 0x12) == 0x80
      && Rewrite(s1, 0x10) == [0, 0, 0, 0x40, 0, 0, 0, 0, 0, 0, 0, 0, 0, 0, 0, 0, 0, 0, 0, 0x80]
  {
    FirstRewrite();
    SecondRewrite(Rewrite(TwoNodeBuffer, 0));
  }

  /** The first node of that walk. */
  lemma FirstRewrite()
    ensures 4 * BE16(TwoNodeBuffer, 0) == 0x10 && 4 * BE16(TwoNodeBuffer, 2) == 0x40
    ensures Rewrite(TwoNodeBuffer, 0) == [0, 0, 0, 0x40] + TwoNodeBuffer[4..]
  {
    SmallPointerBytes(0x40);
    assert TwoNodeBuffer[..0] == [];
  }

  /** The second node of that walk, read after the first rewrite. */
  lemma SecondRewrite(s1: seq<Byte>)
    requires s1 == [0, 0, 0, 0x40] + TwoNodeBuffer[4..]
    ensures 4 * BE16(s1, 0x10) == END && 4 * BE16(s1, 0x12) == 0x80
    ensures Rewrite(s1, 0x10) == [0, 0, 0, 0x40, 0, 0, 0, 0, 0, 0, 0, 0, 0, 0, 0, 0, 0, 0, 0, 0x80]
  {
    assert s1[0x10..] == [0xFF, 0xFF, 0, 0x20];
    SmallPointerBytes(0x80);
    assert s1[..0x10] == [0, 0, 0, 0x40, 0, 0, 0, 0, 0, 0, 0, 0, 0, 0, 0, 0];
  }

  /** A pointer below 0x100 is written as three zero bytes and itself. */
  lemma SmallPointerBytes(v: U32)
    requires v < 0x100
    ensures U32Bytes(v) == [0, 0, 0, v]
  {
  }

  /** Its log: file id 0 for both nodes of an internal chain, and for an
      external chain the listed ids in order, then 0 once they run out. */
  lemma TwoNodeLogs()
    ensures Log([0, 0x10], [0x40, 0x80], Internal(0).ExternalFiles()) == [Reloc(0, 0, 0x40), Reloc(0, 0x10, 0x80)]
    ensures Log([0, 0x10], [0x40, 0x80], External(0, [5, 7]).ExternalFiles()) == [Reloc(5, 0, 0x40), Reloc(7, 0x10, 0x80)]
    ensures Log([0, 0x10], [0x40, 0x80], External(0, [5]).ExternalFiles()) == [Reloc(5, 0, 0x40), Reloc(0, 0x10, 0x80)]
  {
  }
}
