/** The reference graph of one game: descriptors, the files they name, and what a depth-first inspection keeps. */
module ContentModel {
  import opened Wrappers
  import opened CStrings
  import opened Sorting

  const MAX_FILES := 4096
  const MAX_BYTES := 16 * 1024 * 1024
  const MAX_DESCRIPTOR := 4 * 1024 * 1024
  const MAX_DEPTH := 32

  datatype File = File(source: string, relpath: string, path: string, size: nat, missing: bool)

  datatype Reference = Reference(parent: nat, child: nat)

  /** The references a parser meets before it ends, and whether it ends well. */
  datatype Parsed = Parsed(references: seq<string>, complete: bool)

  /** The filesystem and the descriptor formats, fixed during one inspection. */
  datatype Env = Env(
    resolve: (string, string) -> Option<File>,
    read: string -> Option<string>,
    parse: (nat, string) -> Parsed)

  // ---------------------------------------------------------------- paths and kinds

  function Extension(path: string): string {
    var base := AfterLast(path, '/');
    var dot := AfterLast(if base.Some? then base.value else path, '.');
    if dot.Some? then dot.value else ""
  }

  /** `jw__descriptor_kind`: 0 for an ordinary file. */
  function Kind(path: string): nat {
    var e := Fold(Extension(path));
    if e == "m3u" || e == "m3u8" then 1
    else if e == "cue" then 2
    else if e == "gdi" then 3
    else if e == "toc" then 4
    else if e == "cmd" then 5
    else 0
  }

  /** The path up to its last slash; the root keeps its slash. */
  function Directory(path: string): string {
    var base := AfterLast(path, '/');
    if base.None? then path
    else
      var n := |path| - |base.value| - 1;
      if n <= 0 then "/" else if n <= |path| then path[..n] else path
  }

  /** Without a UTF-8 byte order mark. */
  function Body(data: string): string {
    if |data| >= 3 && data[0] as int == 0xEF && data[1] as int == 0xBB && data[2] as int == 0xBF
    then data[3..] else data
  }

  predicate Descriptor(f: File) {
    !f.missing && Kind(f.path) != 0
  }

  // ---------------------------------------------------------------- the graph the filesystem defines

  function Parse(env: Env, f: File): Parsed {
    if !Descriptor(f) then Parsed([], true)
    else
      match env.read(f.path)
      case None => Parsed([], false)
      case Some(data) => env.parse(Kind(f.path), Body(data))
  }

  function Target(env: Env, f: File, reference: string): Option<File> {
    env.resolve(Directory(f.path), reference)
  }

  /** One of the references of `f` leads to `path`. */
  ghost predicate Names(env: Env, f: File, path: string) {
    exists s :: s in Parse(env, f).references && Target(env, f, s).Some? && Target(env, f, s).value.path == path
  }

  /** A ring of files, each named by the one before. */
  ghost predicate Ring(env: Env, fs: seq<File>) {
    && fs != []
    && (forall k | 0 <= k < |fs| - 1 :: Names(env, fs[k], fs[k + 1].path))
    && Names(env, fs[|fs| - 1], fs[0].path)
  }

  // ---------------------------------------------------------------- what is found

  /**
   * `state` is 1 for a file whose descriptor is being read and 2 for one that is done; `rank` numbers the files in the
   * order in which they were done.
   */
  datatype Graph = Graph(files: seq<File>, references: seq<Reference>, state: seq<nat>, rank: seq<nat>, clock: nat)

  function Paths(files: seq<File>): (r: seq<string>)
    ensures |r| == |files| && forall i | 0 <= i < |files| :: r[i] == files[i].path
  {
    seq(|files|, i requires 0 <= i < |files| => files[i].path)
  }

  /** The reference `s` of file `i` resolves, to a file that is listed and linked. */
  ghost predicate Covered(env: Env, g: Graph, i: nat, s: string)
    requires i < |g.files|
  {
    var t := Target(env, g.files[i], s);
    t.Some? && exists j: nat :: Linked(g, i, j) && g.files[j].path == t.value.path
  }

  predicate Linked(g: Graph, i: nat, j: nat) {
    i < |g.files| && j < |g.files| && Reference(i, j) in g.references
  }

  /** The descriptor was read whole, within the limit, and everything it names is in the graph. */
  ghost predicate Complete(env: Env, g: Graph, i: nat)
    requires i < |g.files|
  {
    && Parse(env, g.files[i]).complete
    && (Descriptor(g.files[i]) ==> g.files[i].size <= MAX_DESCRIPTOR)
    && forall s | s in Parse(env, g.files[i]).references :: Covered(env, g, i, s)
  }

  /** `b` comes directly above `a` on the stack. */
  predicate Stacked(stack: seq<nat>, a: nat, b: nat) {
    exists k :: 0 <= k < |stack| - 1 && stack[k] == a && stack[k + 1] == b
  }

  ghost predicate StackSound(g: Graph, stack: seq<nat>) {
    && |g.state| == |g.files| == |g.rank|
    && (forall i | 0 <= i < |g.files| :: g.state[i] == if i in stack then 1 else 2)
    && (forall a, b | 0 <= a < b < |stack| :: stack[a] < stack[b])
    && (forall a | 0 <= a < |stack| :: stack[a] < |g.files|)
    && (stack != [] ==> stack[0] == 0)
    && (forall k | 0 <= k < |stack| - 1 :: Linked(g, stack[k], stack[k + 1]))
  }

  ghost predicate EdgesSound(env: Env, g: Graph, stack: seq<nat>)
    requires |g.state| == |g.files| == |g.rank|
  {
    forall r | r in g.references ::
      && r.parent < |g.files| && r.child < |g.files| && Names(env, g.files[r.parent], g.files[r.child].path)
      && (if g.state[r.parent] == 2 then g.state[r.child] == 2 && g.rank[r.child] < g.rank[r.parent]
          else g.state[r.child] == 2 || Stacked(stack, r.parent, r.child))
  }

  ghost predicate Discovered(g: Graph, i: nat) {
    exists p: nat :: p < i && Linked(g, p, i)
  }

  /** What holds whenever `stack` is the chain of descriptors being read. */
  ghost predicate Sound(env: Env, g: Graph, stack: seq<nat>) {
    && StackSound(g, stack) && EdgesSound(env, g, stack)
    && NoRepeats(Paths(g.files))
    && (forall i | 0 < i < |g.files| :: Discovered(g, i))
    && (forall i | 0 <= i < |g.files| && g.state[i] == 2 :: g.rank[i] < g.clock && Complete(env, g, i))
  }

  /** The graph only grows, and what is done stays done. */
  ghost predicate Grows(g: Graph, h: Graph) {
    && g.files <= h.files && g.references <= h.references && |g.state| == |g.files| && |h.state| == |h.files|
    && forall i | 0 <= i < |g.files| && g.state[i] == 2 :: h.state[i] == 2
  }

  lemma GrowsTwice(a: Graph, b: Graph, c: Graph)
    requires Grows(a, b) && Grows(b, c)
    ensures Grows(a, c)
  {
  }

  lemma CoveredGrows(env: Env, g: Graph, h: Graph, i: nat, s: string)
    requires Grows(g, h) && i < |g.files| && Covered(env, g, i, s)
    ensures i < |h.files| && Covered(env, h, i, s)
  {
    hide Parse, Directory;
    var t := Target(env, g.files[i], s);
    var j: nat :| Linked(g, i, j) && g.files[j].path == t.value.path;
    assert Linked(h, i, j) && h.files[j].path == t.value.path;
  }

  lemma CompleteGrows(env: Env, g: Graph, h: Graph, i: nat)
    requires Grows(g, h) && i < |g.files| && Complete(env, g, i)
    ensures i < |h.files| && Complete(env, h, i)
  {
    hide Parse, Directory, Covered;
    forall s | s in Parse(env, g.files[i]).references ensures Covered(env, h, i, s) { CoveredGrows(env, g, h, i, s); }
  }

  lemma DiscoveredGrows(g: Graph, h: Graph, i: nat)
    requires Grows(g, h) && Discovered(g, i)
    ensures Discovered(h, i)
  {
    var p: nat :| p < i && Linked(g, p, i);
    assert Linked(h, p, i);
  }

  // ---------------------------------------------------------------- the three changes

  /** A new file goes on the stack, linked from the one below. */
  function WithFile(g: Graph, f: File, stack: seq<nat>): Graph {
    g.(files := g.files + [f], state := g.state + [1], rank := g.rank + [0],
       references := g.references + if stack == [] then [] else [Reference(stack[|stack| - 1], |g.files|)])
  }

  lemma {:induction false} WithFileSound(env: Env, g: Graph, f: File, stack: seq<nat>)
    requires Sound(env, g, stack) && f.path !in Paths(g.files)
    requires if stack == [] then g.files == [] else Names(env, g.files[stack[|stack| - 1]], f.path)
    ensures Sound(env, WithFile(g, f, stack), stack + [|g.files|]) && Grows(g, WithFile(g, f, stack))
  {
    hide Names, Complete, Discovered, NoRepeats, Stacked, Linked, Paths, EdgesSound, StackSound;
    var h, n := WithFile(g, f, stack), |g.files|;
    StackWithFile(g, f, stack);
    GrowsWithFile(g, f, stack);
    forall i | 0 <= i < n && g.state[i] == 2 ensures Complete(env, h, i) { CompleteGrows(env, g, h, i); }
    forall i | 0 < i < n + 1 ensures Discovered(h, i) {
      if i < n { DiscoveredGrows(g, h, i); } else { NewIsDiscovered(g, f, stack); }
    }
    PathsSnoc(g.files, f);
    EdgesWithFile(env, g, f, stack);
  }

  lemma GrowsWithFile(g: Graph, f: File, stack: seq<nat>)
    requires StackSound(g, stack)
    ensures Grows(g, WithFile(g, f, stack)) && |g.state| == |g.files| == |g.rank|
  {
  }

  lemma NewIsDiscovered(g: Graph, f: File, stack: seq<nat>)
    requires StackSound(g, stack) && stack != []
    ensures Discovered(WithFile(g, f, stack), |g.files|)
  {
    assert Linked(WithFile(g, f, stack), stack[|stack| - 1], |g.files|);
  }

  lemma StackWithFile(g: Graph, f: File, stack: seq<nat>)
    requires StackSound(g, stack) && (stack == [] ==> g.files == [])
    ensures StackSound(WithFile(g, f, stack), stack + [|g.files|])
  {
    var h, up := WithFile(g, f, stack), stack + [|g.files|];
    forall k | 0 <= k < |up| - 1 ensures Linked(h, up[k], up[k + 1]) {
      if k < |stack| - 1 { assert Linked(g, stack[k], stack[k + 1]); }
    }
  }

  lemma PathsSnoc(files: seq<File>, f: File)
    requires NoRepeats(Paths(files)) && f.path !in Paths(files)
    ensures NoRepeats(Paths(files + [f])) && Paths(files + [f]) == Paths(files) + [f.path]
  {
    assert forall i | 0 <= i < |files| :: Paths(files)[i] != f.path;
  }

  lemma EdgesWithFile(env: Env, g: Graph, f: File, stack: seq<nat>)
    requires StackSound(g, stack) && EdgesSound(env, g, stack)
    requires if stack == [] then g.files == [] else Names(env, g.files[stack[|stack| - 1]], f.path)
    ensures EdgesSound(env, WithFile(g, f, stack), stack + [|g.files|])
  {
    hide Names, Stacked, StackSound;
    GrowsWithFile(g, f, stack);
    var h, n, up := WithFile(g, f, stack), |g.files|, stack + [|g.files|];
    if stack != [] {
      TopState(g, stack);
      TopStacked(stack, n);
    }
    forall r: Reference | Stacked(stack, r.parent, r.child) ensures Stacked(up, r.parent, r.child) {
      StackedStays(stack, n, r.parent, r.child);
    }
  }

  lemma TopState(g: Graph, stack: seq<nat>)
    requires StackSound(g, stack) && stack != []
    ensures stack[|stack| - 1] < |g.files| && g.state[stack[|stack| - 1]] == 1
  {
  }

  lemma StackedStays(stack: seq<nat>, top: nat, a: nat, b: nat)
    requires Stacked(stack, a, b)
    ensures Stacked(stack + [top], a, b)
  {
    var k :| 0 <= k < |stack| - 1 && stack[k] == a && stack[k + 1] == b;
    assert (stack + [top])[k] == a && (stack + [top])[k + 1] == b;
  }

  lemma TopStacked(stack: seq<nat>, top: nat)
    requires stack != []
    ensures Stacked(stack + [top], stack[|stack| - 1], top)
  {
    var up, k := stack + [top], |stack| - 1;
    assert up[k] == stack[k] && up[k + 1] == top;
  }

  /** The file on top names one that is done. */
  function WithReference(g: Graph, parent: nat, child: nat): Graph {
    g.(references := g.references + [Reference(parent, child)])
  }

  lemma WithReferenceSound(env: Env, g: Graph, stack: seq<nat>, child: nat)
    requires Sound(env, g, stack) && stack != [] && child < |g.files| && g.state[child] == 2
    requires Names(env, g.files[stack[|stack| - 1]], g.files[child].path)
    ensures Sound(env, WithReference(g, stack[|stack| - 1], child), stack)
    ensures Grows(g, WithReference(g, stack[|stack| - 1], child))
  {
    hide Names, Complete, Stacked;
    var h := WithReference(g, stack[|stack| - 1], child);
    forall i | 0 <= i < |g.files| && g.state[i] == 2 ensures Complete(env, h, i) { CompleteGrows(env, g, h, i); }
    forall i | 0 < i < |g.files| ensures Discovered(h, i) {
      DiscoveredGrows(g, h, i);
    }
    forall k | 0 <= k < |stack| - 1 ensures Linked(h, stack[k], stack[k + 1]) {
      assert Linked(g, stack[k], stack[k + 1]);
    }
  }

  /** The top of the stack is done. */
  function Finished(g: Graph, i: nat): Graph
    requires i < |g.state| && i < |g.rank|
  {
    g.(state := g.state[i := 2], rank := g.rank[i := g.clock], clock := g.clock + 1)
  }

  lemma FinishedStack(g: Graph, stack: seq<nat>, i: nat)
    requires StackSound(g, stack + [i])
    ensures i < |g.files| && StackSound(Finished(g, i), stack)
  {
    var up, h := stack + [i], Finished(g, i);
    assert forall a | 0 <= a < |stack| :: up[a] == stack[a];
    assert up[|stack|] == i;
    forall a | 0 <= a < |stack| ensures stack[a] < i && stack[a] < |g.files| { assert up[a] < up[|stack|]; }
    assert forall j :: j in up <==> j in stack || j == i;
    forall a, b | 0 <= a < b < |stack| ensures stack[a] < stack[b] { assert up[a] < up[b]; }
    forall k | 0 <= k < |stack| - 1 ensures Linked(h, stack[k], stack[k + 1]) { assert Linked(g, up[k], up[k + 1]); }
  }

  lemma FinishedSound(env: Env, g: Graph, stack: seq<nat>, i: nat)
    requires i < |g.files| && Sound(env, g, stack + [i]) && Complete(env, g, i)
    ensures |g.state| == |g.files| == |g.rank| && Sound(env, Finished(g, i), stack) && Grows(g, Finished(g, i))
  {
    hide Names, Complete, Stacked, EdgesSound, StackSound;
    FinishedStack(g, stack, i);
    FinishedGrows(g, stack, i);
    var h := Finished(g, i);
    forall j | 0 <= j < |g.files| && h.state[j] == 2 ensures h.rank[j] < h.clock && Complete(env, h, j) {
      CompleteGrows(env, g, h, j);
    }
    forall j | 0 < j < |g.files| ensures Discovered(h, j) {
      DiscoveredGrows(g, h, j);
    }
    FinishedEdges(env, g, stack, i);
  }

  lemma FinishedGrows(g: Graph, stack: seq<nat>, i: nat)
    requires StackSound(g, stack + [i])
    ensures i < |g.files| == |g.state| == |g.rank| && Grows(g, Finished(g, i))
  {
    assert (stack + [i])[|stack|] == i;
  }

  lemma FinishedEdges(env: Env, g: Graph, stack: seq<nat>, i: nat)
    requires |g.state| == |g.files| == |g.rank| && i < |g.files| && Sound(env, g, stack + [i])
    ensures EdgesSound(env, Finished(g, i), stack)
  {
    hide Names, Complete;
    var up, h := stack + [i], Finished(g, i);
    assert up[|stack|] == i;
    forall r | r in g.references
      ensures if h.state[r.parent] == 2 then h.state[r.child] == 2 && h.rank[r.child] < h.rank[r.parent]
              else h.state[r.child] == 2 || Stacked(stack, r.parent, r.child)
    {
      if g.state[r.parent] != 2 && g.state[r.child] != 2 {
        var k :| 0 <= k < |up| - 1 && up[k] == r.parent && up[k + 1] == r.child;
        if k < |stack| - 1 { assert stack[k] == r.parent && stack[k + 1] == r.child; }
        assert up[k] < up[|stack|];
      }
    }
  }

  lemma EdgeNames(env: Env, g: Graph, stack: seq<nat>, p: nat, i: nat)
    requires Sound(env, g, stack) && Linked(g, p, i)
    ensures Names(env, g.files[p], g.files[i].path)
  {
    hide Names, Complete, Stacked;
  }

  /** A descriptor that names a file still on the stack closes a ring. */
  lemma CycleClosesRing(env: Env, g: Graph, stack: seq<nat>, seen: nat)
    requires Sound(env, g, stack) && stack != [] && seen in stack
    requires Names(env, g.files[stack[|stack| - 1]], g.files[seen].path)
    ensures exists fs :: Ring(env, fs)
  {
    hide Names, Complete, EdgesSound, Discovered;
    var k :| 0 <= k < |stack| && stack[k] == seen;
    var fs := seq(|stack| - k, a requires 0 <= a < |stack| - k => g.files[stack[k + a]]);
    forall a | 0 <= a < |fs| - 1 ensures Names(env, fs[a], fs[a + 1].path) {
      EdgeNames(env, g, stack, stack[k + a], stack[k + a + 1]);
    }
    assert Ring(env, fs);
  }

  // ---------------------------------------------------------------- why an inspection may fail

  datatype Error =
    | TooDeep
    | Unresolved
    | Cycle
    | TooManyFiles
    | TooLarge
    | Unreadable
    | Malformed
    | OutsideSource

  /** Files each of which is named by the one before. */
  ghost predicate Line(env: Env, fs: seq<File>) {
    fs != [] && forall k | 0 <= k < |fs| - 1 :: Names(env, fs[k], fs[k + 1].path)
  }

  ghost predicate LineTo(env: Env, launch: File, fs: seq<File>, f: File) {
    Line(env, fs) && fs[0] == launch && fs[|fs| - 1] == f
  }

  ghost predicate Reached(env: Env, launch: File, f: File) {
    exists fs :: LineTo(env, launch, fs, f)
  }

  /** Bytes an inspection has to read for this file. */
  function Load(f: File): nat {
    if Descriptor(f) then f.size else 0
  }

  function Total(files: seq<File>): nat {
    if files == [] then 0 else Total(files[..|files| - 1]) + Load(files[|files| - 1])
  }

  /** Different files that all belong to the game. */
  ghost predicate Belong(env: Env, launch: File, files: seq<File>) {
    NoRepeats(Paths(files)) && forall f | f in files :: Reached(env, launch, f)
  }

  /** What in the filesystem an error reports, for the game of this launch file. */
  ghost predicate Blame(env: Env, launch: File, error: Error) {
    match error
    case TooDeep => exists fs, f ::
      LineTo(env, launch, fs, f) && |fs| == 33 && Parse(env, f).references != []
    case Unresolved => exists f, s ::
      Reached(env, launch, f) && s in Parse(env, f).references && Target(env, f, s).None?
    case Cycle => exists fs :: Ring(env, fs)
    case TooManyFiles => exists files :: Belong(env, launch, files) && |files| == 4097
    case TooLarge =>
      || (exists f :: Reached(env, launch, f) && Descriptor(f) && f.size > 4_194_304)
      || (exists files :: Belong(env, launch, files) && Total(files) > 16_777_216)
    case Unreadable => exists f :: Reached(env, launch, f) && Descriptor(f) && !ReadWhole(env, f)
    case Malformed => exists f :: Reached(env, launch, f) && Descriptor(f) && !Parse(env, f).complete
    case OutsideSource => false
  }

  predicate ReadWhole(env: Env, f: File) {
    env.read(f.path).Some? && |env.read(f.path).value| == f.size
  }

  lemma LineExtends(env: Env, launch: File, fs: seq<File>, f: File, g: File)
    requires LineTo(env, launch, fs, f) && Names(env, f, g.path)
    ensures LineTo(env, launch, fs + [g], g)
  {
    hide Names;
  }

  lemma ReachedExtends(env: Env, launch: File, f: File, g: File)
    requires Reached(env, launch, f) && Names(env, f, g.path)
    ensures Reached(env, launch, g)
  {
    hide Names;
    var fs :| LineTo(env, launch, fs, f);
    LineExtends(env, launch, fs, f, g);
  }

  /** Every listed file belongs to the game. */
  lemma {:induction false} ListedIsReached(env: Env, g: Graph, stack: seq<nat>, i: nat)
    requires Sound(env, g, stack) && i < |g.files|
    ensures Reached(env, g.files[0], g.files[i])
    decreases i
  {
    hide Names, Complete, StackSound, Stacked;
    if i == 0 {
      assert LineTo(env, g.files[0], [g.files[0]], g.files[0]);
    } else {
      assert Discovered(g, i);
      var p: nat :| p < i && Linked(g, p, i);
      ListedIsReached(env, g, stack, p);
      EdgeNames(env, g, stack, p, i);
      ReachedExtends(env, g.files[0], g.files[p], g.files[i]);
    }
  }

  lemma AllBelong(env: Env, g: Graph, stack: seq<nat>)
    requires Sound(env, g, stack) && g.files != []
    ensures Belong(env, g.files[0], g.files)
  {
    hide Names, Complete, StackSound, EdgesSound, Reached, Discovered;
    forall f | f in g.files ensures Reached(env, g.files[0], f) {
      var i :| 0 <= i < |g.files| && g.files[i] == f;
      ListedIsReached(env, g, stack, i);
    }
  }

  /** The stack is itself a line from the launch file. */
  lemma StackIsLine(env: Env, g: Graph, stack: seq<nat>)
    requires Sound(env, g, stack) && stack != []
    ensures stack[|stack| - 1] < |g.files|
    ensures exists fs :: LineTo(env, g.files[0], fs, g.files[stack[|stack| - 1]]) && |fs| == |stack|
  {
    hide Names, Complete, EdgesSound, Discovered;
    var fs := seq(|stack|, k requires 0 <= k < |stack| => g.files[stack[k]]);
    forall k | 0 <= k < |fs| - 1 ensures Names(env, fs[k], fs[k + 1].path) {
      EdgeNames(env, g, stack, stack[k], stack[k + 1]);
    }
    assert LineTo(env, g.files[0], fs, g.files[stack[|stack| - 1]]);
  }

  /** One file more than there may be. */
  lemma OneTooMany(env: Env, g: Graph, stack: seq<nat>, f: File)
    requires Sound(env, g, stack) && stack != [] && |g.files| == MAX_FILES && f.path !in Paths(g.files)
    requires stack[|stack| - 1] < |g.files| && Names(env, g.files[stack[|stack| - 1]], f.path)
    ensures Blame(env, g.files[0], TooManyFiles)
  {
    hide Names, Complete, StackSound, EdgesSound, Reached, Discovered;
    AllBelong(env, g, stack);
    ListedIsReached(env, g, stack, stack[|stack| - 1]);
    ReachedExtends(env, g.files[0], g.files[stack[|stack| - 1]], f);
    PathsSnoc(g.files, f);
    assert Belong(env, g.files[0], g.files + [f]);
  }

  lemma TotalSnoc(files: seq<File>, f: File)
    ensures Total(files + [f]) == Total(files) + Load(f)
  {
    assert (files + [f])[..|files|] == files;
  }

  // ---------------------------------------------------------------- what a finished inspection means

  /** A walk along references. */
  ghost predicate Walk(g: Graph, w: seq<nat>) {
    && w != [] && (forall k | 0 <= k < |w| :: w[k] < |g.files|)
    && forall k | 0 <= k < |w| - 1 :: Linked(g, w[k], w[k + 1])
  }

  lemma AllDone(env: Env, g: Graph)
    requires Sound(env, g, [])
    ensures forall i | 0 <= i < |g.files| :: |g.state| == |g.files| && g.state[i] == 2
  {
  }

  lemma {:induction false} WalkDescends(env: Env, g: Graph, w: seq<nat>)
    requires Sound(env, g, []) && Walk(g, w) && |w| >= 2
    ensures |g.rank| == |g.files| && g.rank[w[|w| - 1]] < g.rank[w[0]]
    decreases |w|
  {
    hide Names, Complete;
    AllDone(env, g);
    var k := |w| - 2;
    assert Linked(g, w[k], w[k + 1]);
    if k > 0 {
      assert Walk(g, w[..|w| - 1]);
      WalkDescends(env, g, w[..|w| - 1]);
    }
  }

  /** No walk comes back to where it started. */
  lemma Acyclic(env: Env, g: Graph, w: seq<nat>)
    requires Sound(env, g, []) && Walk(g, w) && |w| >= 2
    ensures w[0] != w[|w| - 1]
  {
    WalkDescends(env, g, w);
  }

  /** Every file is reached from the launch file. */
  lemma {:induction false} Reachable(env: Env, g: Graph, i: nat)
    requires Sound(env, g, []) && i < |g.files|
    ensures exists w :: Walk(g, w) && w[0] == 0 && w[|w| - 1] == i
    decreases i
  {
    hide Names, Complete, EdgesSound, StackSound;
    if i == 0 {
      assert Walk(g, [0]);
    } else {
      assert Discovered(g, i);
      var p: nat :| p < i && Linked(g, p, i);
      Reachable(env, g, p);
      var w :| Walk(g, w) && w[0] == 0 && w[|w| - 1] == p;
      assert Walk(g, w + [i]);
    }
  }

  /** The edges are exactly the references of the present descriptors, each file standing for its path. */
  lemma EdgesAreReferences(env: Env, g: Graph, i: nat, j: nat)
    requires Sound(env, g, []) && i < |g.files| && j < |g.files|
    ensures Linked(g, i, j) <==> Names(env, g.files[i], g.files[j].path)
  {
    hide Parse, Directory, Target, StackSound, Discovered, Descriptor;
    AllDone(env, g);
    assert Complete(env, g, i);
    if Names(env, g.files[i], g.files[j].path) {
      var s :| s in Parse(env, g.files[i]).references && Target(env, g.files[i], s).Some?
        && Target(env, g.files[i], s).value.path == g.files[j].path;
      var k: nat :| Linked(g, i, k) && g.files[k].path == g.files[j].path;
      assert Paths(g.files)[k] == Paths(g.files)[j];
    }
  }
}
