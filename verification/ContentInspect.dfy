/** `jw_content_inspect`: the depth-first walk over nested descriptors, with its own file index. */
module ContentInspect {
  import opened Wrappers
  import opened Sorting
  import opened HashIndex
  import opened ContentModel

  datatype Result = Found(index: nat) | Failed(error: Error)

  class Inspector {
    const env: Env
    var files: seq<File>
    var references: seq<Reference>
    var state: seq<nat>
    var bytesRead: nat
    const parents: array<nat>
    const index: Index
    ghost var rank: seq<nat>
    ghost var clock: nat

    ghost function View(): Graph
      reads this
    {
      Graph(files, references, state, rank, clock)
    }

    /**
     * `parents[..depth]` is the chain of descriptors being read; `unread` bytes of the newest file are still to come.
     */
    ghost predicate Holding(depth: nat, unread: nat)
      reads this, parents, index, index.slots
    {
      && parents.Length == MAX_DEPTH + 1 && depth <= parents.Length && parents != index.slots
      && index.Holds(Paths(files)) && Sound(env, View(), parents[..depth])
      && |files| <= MAX_FILES && bytesRead <= MAX_BYTES && bytesRead + unread == Total(files)
    }

    ghost predicate Valid(depth: nat)
      reads this, parents, index, index.slots
    {
      Holding(depth, 0)
    }

    constructor (env: Env, hash: string -> nat)
      ensures Valid(0) && this.env == env && files == [] && references == [] && bytesRead == 0
      ensures fresh(index) && fresh(index.slots) && fresh(parents)
    {
      this.env := env;
      files, references, state, bytesRead, rank, clock := [], [], [], 0, [], 0;
      parents := new nat[MAX_DEPTH + 1];
      index := new Index(hash);
      new;
      assert Paths(files) == [];
    }

    /** jw__add_reference */
    method AddReference(depth: nat, child: nat)
      requires Valid(depth) && depth > 0 && child < |files| && |state| == |files| && state[child] == 2
      requires parents[depth - 1] < |files| && Names(env, files[parents[depth - 1]], files[child].path)
      modifies this
      ensures Valid(depth) && files == old(files) && bytesRead == old(bytesRead) && state == old(state)
      ensures Grows(old(View()), View()) && Linked(View(), parents[depth - 1], child)
    {
      hide Names, Sound, Grows;
      ghost var stack := parents[..depth];
      assert stack[|stack| - 1] == parents[depth - 1];
      WithReferenceSound(env, View(), stack, child);
      references := references + [Reference(parents[depth - 1], child)];
    }

    /** Lists a new file, puts it on the stack and links it from the descriptor that names it. */
    method AddFile(depth: nat, file: File)
      requires Valid(depth) && depth <= MAX_DEPTH && file.path !in Paths(files) && |files| < MAX_FILES
      requires if depth == 0 then files == []
               else parents[depth - 1] < |files| && Names(env, files[parents[depth - 1]], file.path)
      modifies this, parents, index, index.slots
      ensures Holding(depth + 1, Load(file)) && (index.slots == old(index.slots) || fresh(index.slots))
      ensures files == old(files) + [file] && bytesRead == old(bytesRead) && parents[..depth] == old(parents[..depth])
      ensures parents[depth] == |old(files)| && Grows(old(View()), View())
      ensures depth > 0 ==> Linked(View(), parents[depth - 1], |old(files)|)
    {
      hide Names, Sound, Grows, Index.Holds, Total, Load;
      TotalSnoc(files, file);
      ghost var before, stack := View(), parents[..depth];
      assert depth > 0 ==> stack[|stack| - 1] == parents[depth - 1];
      SoundNoRepeats(env, before, stack);
      WithFileSound(env, before, file, stack);
      PathsSnoc(files, file);
      index.Put(Paths(files), file.path);
      var at := |files|;
      parents[depth] := at;
      if depth > 0 { references := references + [Reference(parents[depth - 1], at)]; }
      files, state, rank := files + [file], state + [1], rank + [0];
      assert parents[..depth + 1] == stack + [at];
      assert View().references == WithFile(before, file, stack).references;
      assert View() == WithFile(before, file, stack);
    }

    /** The descriptor on top of the stack is done. */
    method Finish(depth: nat, at: nat)
      requires Valid(depth + 1) && depth <= MAX_DEPTH && parents[depth] == at && at < |files|
      requires Complete(env, View(), at)
      modifies this
      ensures Valid(depth) && files == old(files) && references == old(references) && bytesRead == old(bytesRead)
      ensures Grows(old(View()), View()) && |state| == |files| && state[at] == 2
    {
      hide Names, Sound, Grows, Complete;
      assert parents[..depth + 1] == parents[..depth] + [at];
      FinishedSound(env, View(), parents[..depth], at);
      state := state[at := 2];
      rank, clock := rank[at := clock], clock + 1;
    }

    /**
     * jw__visit. `from` is the directory of the descriptor on top of the stack; at depth 0 nothing is listed yet.
     * Every error has its cause in the game's files.
     */
    method Visit(from: string, reference: string, depth: nat) returns (r: Result)
      requires Valid(depth) && NamedByTop(depth, from, reference)
      modifies this, parents, index, index.slots
      ensures index.slots == old(index.slots) || fresh(index.slots)
      ensures r.Found? ==> Valid(depth) && Grows(old(View()), View()) && parents[..depth] == old(parents[..depth])
      ensures r.Found? ==> r.index < |files| && |state| == |files| && state[r.index] == 2
      ensures r.Found? ==>
        env.resolve(from, reference).Some? && files[r.index].path == env.resolve(from, reference).value.path
      ensures r.Found? && depth > 0 ==> Linked(View(), parents[depth - 1], r.index)
      ensures r.Found? && depth == 0 ==> r.index == 0 && files[0] == env.resolve(from, reference).value
      ensures r.Failed? ==> Blamed(if depth == 0 then env.resolve(from, reference) else Some(old(files)[0]), r.error)
      decreases MAX_DEPTH + 1 - depth, 2
    {
      hide Names, Sound, Grows, Complete, Index.Holds, Linked, Ring, Blame, Reached;
      if depth > MAX_DEPTH {
        BlameDepth(depth, from, reference);
        return Failed(TooDeep);
      }
      var resolved := env.resolve(from, reference);
      if resolved.None? {
        BlameTop(depth, from, reference);
        return Failed(Unresolved);
      }
      NamedFromTop(depth, from, reference);
      var seen := index.Find(Paths(files), resolved.value.path);
      if seen.Some? {
        BlameCycle(env, files[0]);
        r := Revisit(depth, seen.value);
      } else if |files| == MAX_FILES {
        BlameCount(depth, resolved.value);
        r := Failed(TooManyFiles);
      } else {
        r := Enter(depth, resolved.value);
      }
    }

    /** A file that is listed already: on the stack it closes a cycle, otherwise it gets one more reference. */
    method Revisit(depth: nat, seen: nat) returns (r: Result)
      requires Valid(depth) && seen < |files| && (depth == 0 ==> files == [])
      requires depth > 0 ==> parents[depth - 1] < |files| && Names(env, files[parents[depth - 1]], files[seen].path)
      modifies this
      ensures r.Found? ==> Valid(depth) && Grows(old(View()), View()) && files == old(files)
      ensures r.Found? ==> r.index == seen && |state| == |files| && state[seen] == 2
      ensures r.Found? && depth > 0 ==> Linked(View(), parents[depth - 1], seen)
      ensures r.Failed? ==> r.error == Cycle && exists fs :: Ring(env, fs)
    {
      hide Names, Sound, Grows, Complete, Index.Holds, Linked, Ring;
      ghost var stack := parents[..depth];
      assert depth > 0 ==> stack != [] && stack[|stack| - 1] == parents[depth - 1];
      StackStates(env, View(), stack, seen);
      if state[seen] == 1 {
        CycleClosesRing(env, View(), stack, seen);
        return Failed(Cycle);
      }
      AddReference(depth, seen);
      return Found(seen);
    }

    /** A file seen for the first time: listed, read, finished. */
    method Enter(depth: nat, file: File) returns (r: Result)
      requires Valid(depth) && depth <= MAX_DEPTH && file.path !in Paths(files) && |files| < MAX_FILES
      requires if depth == 0 then files == []
               else parents[depth - 1] < |files| && Names(env, files[parents[depth - 1]], file.path)
      modifies this, parents, index, index.slots
      ensures index.slots == old(index.slots) || fresh(index.slots)
      ensures r.Found? ==> Valid(depth) && Grows(old(View()), View()) && parents[..depth] == old(parents[..depth])
      ensures r.Found? ==>
        r.index == |old(files)| < |files| && |state| == |files| && state[r.index] == 2 && files[r.index] == file
      ensures r.Found? && depth > 0 ==> Linked(View(), parents[depth - 1], r.index)
      ensures r.Failed? ==> Blame(env, if depth == 0 then file else old(files)[0], r.error)
      decreases MAX_DEPTH + 1 - depth, 1
    {
      hide Names, Sound, Grows, Complete, Index.Holds, Linked, Ring, Blame, Load, Total;
      ghost var g0 := View();
      GrowsAtAll(g0);
      AddFile(depth, file);
      GrowsKeeps(g0, View());
      var at := parents[depth];
      ghost var g1, p1 := View(), parents[..depth + 1];
      r := ReadDescriptor(depth, at);
      if r.Failed? {
        return;
      }
      assert parents[..depth + 1] == p1 && parents[depth] == p1[depth] && parents[..depth] == p1[..depth];
      assert depth > 0 ==> parents[depth - 1] == p1[depth - 1];
      GrowsTwice(g0, g1, View());
      GrowsKeeps(g1, View());
      ghost var g2 := View();
      Finish(depth, at);
      GrowsTwice(g0, g2, View());
      GrowsKeeps(g2, View());
    }

    /** The error is to blame on the game of this launch file, or there is no launch file. */
    ghost predicate Blamed(launch: Option<File>, error: Error) {
      if launch.None? then error == Unresolved else Blame(env, launch.value, error)
    }

    /** The caller's obligation: the reference is one of those of the descriptor on top. */
    ghost predicate NamedByTop(depth: nat, from: string, reference: string)
      requires parents.Length == MAX_DEPTH + 1 && depth <= parents.Length
      reads this, parents
    {
      if depth == 0 then files == []
      else
        && parents[depth - 1] < |files| && from == Directory(files[parents[depth - 1]].path)
        && reference in Parse(env, files[parents[depth - 1]]).references
    }

    lemma BlameDepth(depth: nat, from: string, reference: string)
      requires Valid(depth) && NamedByTop(depth, from, reference) && depth == MAX_DEPTH + 1
      ensures files != [] && Blame(env, files[0], TooDeep)
    {
      hide Names, Sound, Complete, LineTo;
      ghost var stack := parents[..depth];
      assert stack[|stack| - 1] == parents[depth - 1];
      StackIsLine(env, View(), stack);
      var fs :| LineTo(env, files[0], fs, files[stack[|stack| - 1]]) && |fs| == |stack|;
    }

    lemma BlameTop(depth: nat, from: string, reference: string)
      requires Valid(depth) && NamedByTop(depth, from, reference) && env.resolve(from, reference).None?
      ensures depth > 0 ==> files != [] && Blame(env, files[0], Unresolved)
    {
      hide Names, Sound, Complete, Reached;
      if depth > 0 { ListedIsReached(env, View(), parents[..depth], parents[depth - 1]); }
    }

    lemma BlameCount(depth: nat, file: File)
      requires Valid(depth) && |files| == MAX_FILES && file.path !in Paths(files) && depth > 0
      requires parents[depth - 1] < |files| && Names(env, files[parents[depth - 1]], file.path)
      ensures Blame(env, files[0], TooManyFiles)
    {
      hide Names, Sound, Complete, Blame;
      ghost var stack := parents[..depth];
      assert stack[|stack| - 1] == parents[depth - 1];
      OneTooMany(env, View(), stack, file);
    }

    lemma NamedFromTop(depth: nat, from: string, reference: string)
      requires parents.Length == MAX_DEPTH + 1 && depth <= parents.Length && NamedByTop(depth, from, reference)
      requires env.resolve(from, reference).Some?
      ensures depth > 0 ==> Names(env, files[parents[depth - 1]], env.resolve(from, reference).value.path)
    {
    }

    /** Reads the descriptor just listed and visits what it names, until it is finished or something fails. */
    method ReadDescriptor(depth: nat, at: nat) returns (r: Result)
      requires depth <= MAX_DEPTH && at < |files| && Holding(depth + 1, Load(files[at])) && parents[depth] == at
      modifies this, parents, index, index.slots
      ensures index.slots == old(index.slots) || fresh(index.slots)
      ensures r.Found? ==>
        Valid(depth + 1) && Grows(old(View()), View()) && parents[..depth + 1] == old(parents[..depth + 1])
      ensures r.Found? ==> r.index == at && at < |files| && Complete(env, View(), at)
      ensures r.Failed? ==> Blame(env, old(files)[0], r.error)
      decreases MAX_DEPTH + 1 - depth, 0, 1
    {
      hide Names, Sound, Grows, Covered, Kind, Directory, Index.Holds, Reached, Total, Blame;
      var file := files[at];
      ghost var g0 := View();
      SizesAgree(env, g0, parents[..depth + 1]);
      GrowsAtAll(g0);
      if !Descriptor(file) {
        return Found(at);
      }
      BlameFile(env, g0, parents[..depth + 1], at);
      if file.size > MAX_DESCRIPTOR || file.size > MAX_BYTES - bytesRead {
        return Failed(TooLarge);
      }
      var data := env.read(file.path);
      if data.None? || |data.value| != file.size {
        return Failed(Unreadable);
      }
      bytesRead := bytesRead + |data.value|;
      var parsed := env.parse(Kind(file.path), Body(data.value));
      var from := Directory(file.path);
      var followed := Follow(depth, at, from, parsed.references);
      if followed.Failed? {
        return followed;
      }
      if !parsed.complete {
        return Failed(Malformed);
      }
      return Found(at);
    }

    /** Visits, in order, what the descriptor on top names. */
    method Follow(depth: nat, at: nat, from: string, references: seq<string>) returns (r: Result)
      requires Valid(depth + 1) && depth <= MAX_DEPTH && at < |files| && parents[depth] == at && |state| == |files|
      requires from == Directory(files[at].path) && references == Parse(env, files[at]).references
      modifies this, parents, index, index.slots
      ensures index.slots == old(index.slots) || fresh(index.slots)
      ensures r.Found? ==>
        Valid(depth + 1) && Grows(old(View()), View()) && parents[..depth + 1] == old(parents[..depth + 1])
      ensures r.Found? ==>
        at < |files| && files[at] == old(files)[at] && forall s | s in references :: Covered(env, View(), at, s)
      ensures r.Failed? ==> Blame(env, old(files)[0], r.error)
      decreases MAX_DEPTH + 1 - depth, 0, 0
    {
      hide Names, Sound, Grows, Covered, Directory, Parse, Index.Holds, Blame, Linked, Total, CoveredUpTo;
      ghost var g0 := View();
      GrowsAtAll(g0);
      NothingToCover(env, g0, at, references);
      for n := 0 to |references|
        invariant Valid(depth + 1) && Grows(g0, View()) && parents[..depth + 1] == old(parents[..depth + 1])
        invariant index.slots == old(index.slots) || fresh(index.slots)
        invariant parents[depth] == at && at < |files| && files[at] == g0.files[at] && files[0] == g0.files[0]
        invariant CoveredUpTo(env, View(), at, references, n)
      {
        ghost var g1 := View();
        var visited := Visit(from, references[n], depth + 1);
        if visited.Failed? {
          return visited;
        }
        assert parents[..depth + 1][depth] == at;
        GrowsKeeps(g1, View());
        GrowsTwice(g0, g1, View());
        LinkedCovers(env, View(), at, references[n], visited.index);
        OneMoreCovered(env, g1, View(), at, references, n);
      }
      AllCovered(env, View(), at, references);
      return Found(at);
    }

    /** jw_content_inspect: on any failure everything found is given back. */
    method Inspect(root: string, relpath: string, source: string) returns (r: Result)
      requires Valid(0) && files == [] && references == []
      modifies this, parents, index, index.slots
      ensures r.Found? ==> r.index == 0 && Sound(env, View(), []) && files != [] && files[0].source == source
      ensures r.Found? ==>
        |files| <= 4096 && bytesRead <= 16_777_216 && Some(files[0]) == env.resolve(root, relpath)
      ensures r.Failed? ==> files == [] && references == []
      ensures r.Failed? ==> Accounted(env, root, relpath, source, r.error)
    {
      hide Names, Sound, Grows, Complete, Blame;
      NotOutside(env);
      r := Visit(root, relpath, 0);
      if r.Found? {
        assert parents[..0] == [];
        if files[r.index].source != source { r := Failed(OutsideSource); }
      }
      if r.Failed? {
        files, references := [], [];
      }
    }
  }

  /** What an inspection that fails has met: no launch file, one of another source, or a fault in the game's files. */
  ghost predicate Accounted(env: Env, root: string, relpath: string, source: string, error: Error) {
    match env.resolve(root, relpath)
    case None => error == Unresolved
    case Some(launch) => if error == OutsideSource then launch.source != source else Blame(env, launch, error)
  }

  lemma NotOutside(env: Env)
    ensures forall launch, error | Blame(env, launch, error) :: error != OutsideSource
  {
  }

  lemma BlameCycle(env: Env, launch: File)
    ensures (exists fs :: Ring(env, fs)) ==> Blame(env, launch, Cycle)
  {
  }

  /** What would be wrong with this file, if it were not read. */
  lemma BlameFile(env: Env, g: Graph, stack: seq<nat>, at: nat)
    requires Sound(env, g, stack) && at < |g.files| && Descriptor(g.files[at])
    ensures g.files[at].size > MAX_DESCRIPTOR || Total(g.files) > MAX_BYTES ==> Blame(env, g.files[0], TooLarge)
    ensures !ReadWhole(env, g.files[at]) ==> Blame(env, g.files[0], Unreadable)
    ensures !Parse(env, g.files[at]).complete ==> Blame(env, g.files[0], Malformed)
  {
    hide Names, Sound, Complete, Reached, Parse, Total, Kind;
    ListedIsReached(env, g, stack, at);
    AllBelong(env, g, stack);
  }

  lemma SoundNoRepeats(env: Env, g: Graph, stack: seq<nat>)
    requires Sound(env, g, stack)
    ensures NoRepeats(Paths(g.files))
  {
    hide Names, Complete, EdgesSound, StackSound;
  }

  lemma StackStates(env: Env, g: Graph, stack: seq<nat>, i: nat)
    requires Sound(env, g, stack) && i < |g.files|
    ensures |g.state| == |g.files| && g.state[i] == if i in stack then 1 else 2
    ensures stack != [] ==> stack[|stack| - 1] < |g.files|
  {
    hide Names, Complete, EdgesSound;
  }

  lemma SizesAgree(env: Env, g: Graph, stack: seq<nat>)
    requires Sound(env, g, stack)
    ensures |g.state| == |g.files| == |g.rank|
  {
    hide Names, Complete, EdgesSound;
  }

  lemma GrowsAtAll(g: Graph)
    ensures |g.state| == |g.files| ==> Grows(g, g)
  {
  }

  lemma GrowsKeeps(g: Graph, h: Graph)
    requires Grows(g, h)
    ensures |g.files| <= |h.files| && forall i | 0 <= i < |g.files| :: h.files[i] == g.files[i]
    ensures forall i: nat, j: nat :: Linked(g, i, j) ==> Linked(h, i, j)
  {
  }

  /** The first `n` references are covered. */
  ghost predicate CoveredUpTo(env: Env, g: Graph, at: nat, references: seq<string>, n: nat) {
    n <= |references| && at < |g.files| && forall m | 0 <= m < n :: Covered(env, g, at, references[m])
  }

  lemma NothingToCover(env: Env, g: Graph, at: nat, references: seq<string>)
    requires at < |g.files|
    ensures CoveredUpTo(env, g, at, references, 0)
  {
  }

  lemma OneMoreCovered(env: Env, g: Graph, h: Graph, at: nat, references: seq<string>, n: nat)
    requires Grows(g, h) && CoveredUpTo(env, g, at, references, n) && n < |references|
    requires at < |h.files| && Covered(env, h, at, references[n])
    ensures CoveredUpTo(env, h, at, references, n + 1)
  {
    hide Covered, Grows;
    forall m | 0 <= m < n ensures Covered(env, h, at, references[m]) { CoveredGrows(env, g, h, at, references[m]); }
  }

  lemma AllCovered(env: Env, g: Graph, at: nat, references: seq<string>)
    requires CoveredUpTo(env, g, at, references, |references|)
    ensures at < |g.files| && forall s | s in references :: Covered(env, g, at, s)
  {
    hide Covered;
  }

  lemma LinkedCovers(env: Env, g: Graph, at: nat, s: string, j: nat)
    requires at < |g.files| && j < |g.files| && Linked(g, at, j)
    requires Target(env, g.files[at], s).Some? && g.files[j].path == Target(env, g.files[at], s).value.path
    ensures Covered(env, g, at, s)
  {
  }
}
