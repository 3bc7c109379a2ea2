/** The include closure of a Circom file, and whether its build artifacts are stale. */
module CircomDeps {
  import opened Common

  type File = string

  /** A source file as the include pattern sees it: its include statements and the rest. */
  datatype Statement = Include(path: string) | Other

  datatype Resolution = Resolved(file: File) | Unresolved | ResolveError

  /** What the build can read: contents, path resolution from within a file, change times. */
  datatype Disk = Disk(
    contents: map<File, seq<Statement>>,
    resolve: (string, File) -> Resolution,
    modified: map<File, nat>)

  datatype IoError = IoError

  predicate OpensWithInclude(content: seq<Statement>) { content != [] && content[0].Include? }

  /** The includes the pattern finds. Its `^` anchors at the start of the text, not of each
      line, so only an include that opens the file is found. */
  function Captures(content: seq<Statement>): seq<string> {
    if OpensWithInclude(content) then [content[0].path] else []
  }

  /** All includes of a file, as the function's documentation has it. */
  function AllIncludes(content: seq<Statement>): seq<string> {
    if content == [] then []
    else (if content[0].Include? then [content[0].path] else []) + AllIncludes(content[1..])
  }

  // ----- reachability

  /** g is included by f directly. */
  predicate Includes(disk: Disk, f: File, g: File) {
    f in disk.contents &&
    exists path :: path in Captures(disk.contents[f]) && disk.resolve(path, f) == Resolved(g)
  }

  /** A chain of direct includes. */
  ghost predicate Chain(disk: Disk, p: seq<File>) {
    forall i :: 0 <= i < |p| - 1 ==> Includes(disk, p[i], p[i + 1])
  }

  /** g is included by f in one or more steps. */
  ghost predicate Reaches(disk: Disk, f: File, g: File) {
    exists p: seq<File> :: |p| >= 2 && p[0] == f && p[|p| - 1] == g && Chain(disk, p)
  }

  /** f is the main file or one that it reaches by the includes the pattern finds. */
  ghost predicate Listed(disk: Disk, main: File, f: File) { f == main || Reaches(disk, main, f) }

  /** A file whose reading or whose includes' resolution fails. */
  predicate Bad(disk: Disk, f: File) {
    f !in disk.contents
    || exists path :: path in Captures(disk.contents[f]) && disk.resolve(path, f).ResolveError?
  }

  lemma ReachesStep(disk: Disk, f: File, g: File, h: File)
    requires f == g || Reaches(disk, f, g)
    requires Includes(disk, g, h)
    ensures Reaches(disk, f, h)
  {
    if f == g {
      var p := [f, h];
      assert |p| >= 2 && p[0] == f && p[|p| - 1] == h && Chain(disk, p);
    } else {
      var p :| |p| >= 2 && p[0] == f && p[|p| - 1] == g && Chain(disk, p);
      var q := p + [h];
      forall i | 0 <= i < |q| - 1 ensures Includes(disk, q[i], q[i + 1]) {
        if i < |p| - 1 { assert Includes(disk, p[i], p[i + 1]); }
      }
      assert |q| >= 2 && q[0] == f && q[|q| - 1] == h && Chain(disk, q);
    }
  }

  /** A set that holds what main and its own members include holds all that main reaches. */
  lemma ClosedContainsReach(disk: Disk, main: File, s: set<File>)
    requires forall f, g :: (f == main || f in s) && Includes(disk, f, g) ==> g in s
    ensures forall g :: Reaches(disk, main, g) ==> g in s
  {
    forall g | Reaches(disk, main, g) ensures g in s {
      var p :| |p| >= 2 && p[0] == main && p[|p| - 1] == g && Chain(disk, p);
      ChainInside(disk, main, s, p, |p| - 1);
    }
  }

  lemma {:induction false} ChainInside(disk: Disk, main: File, s: set<File>, p: seq<File>, i: nat)
    requires forall f, g :: (f == main || f in s) && Includes(disk, f, g) ==> g in s
    requires Chain(disk, p) && 0 < i < |p| && p[0] == main
    ensures p[i] in s
  {
    if i > 1 { ChainInside(disk, main, s, p, i - 1); }
    assert Includes(disk, p[i - 1], p[i]);
  }

  // ----- the worklist

  function Elements(s: seq<File>): set<File> { set x | x in s }

  /** All that the worklist keeps. */
  ghost predicate Progress(disk: Disk, main: File, visited: set<File>, todo: seq<File>, deps: seq<File>) {
    && (main in visited || main in todo)
    && (forall f :: f in visited ==> f == main || f in deps)
    && (forall f :: f in todo ==> f == main || f in deps)
    && (forall f :: f in deps ==> f in visited || f in todo)
    && (forall f :: f in deps ==> Reaches(disk, main, f))
    && (forall f :: f in visited ==> !Bad(disk, f))
    && (forall f, g :: f in visited && Includes(disk, f, g) ==> g in deps)
  }

  /** Reads one file's includes: the resolved ones, or a failure. */
  method ReadIncludes(disk: Disk, file: File) returns (res: Result<seq<File>, IoError>)
    ensures res.Success? <==> !Bad(disk, file)
    ensures res.Success? ==> forall g :: g in res.value <==> Includes(disk, file, g)
  {
    if file !in disk.contents {
      return Failure(IoError);
    }
    var found: seq<File> := [];
    var captures := Captures(disk.contents[file]);
    for i := 0 to |captures|
      invariant forall j :: 0 <= j < i ==> !disk.resolve(captures[j], file).ResolveError?
      invariant forall g :: g in found <==>
        exists j :: 0 <= j < i && disk.resolve(captures[j], file) == Resolved(g)
    {
      match disk.resolve(captures[i], file) {
        case Resolved(g) => found := found + [g];
        case Unresolved =>
        case ResolveError => return Failure(IoError);
      }
    }
    res := Success(found);
  }

  /** The files included by main in one or more steps, repeats possible; fails exactly if
      main or one of those files cannot be read or resolved. */
  method ExtractDependencies(disk: Disk, main: File) returns (res: Result<seq<File>, IoError>)
    ensures res.Failure? <==> exists f :: Listed(disk, main, f) && Bad(disk, f)
    ensures res.Success? ==> forall f :: f in res.value <==> Reaches(disk, main, f)
  {
    var deps: seq<File> := [];
    var visited: set<File> := {};
    var todo := [main];
    while |todo| > 0
      invariant Progress(disk, main, visited, todo, deps)
      invariant visited <= disk.contents.Keys
      decreases |disk.contents.Keys - visited|, |todo|
    {
      var current := todo[|todo| - 1];
      ghost var before := todo;
      todo := todo[..|todo| - 1];
      assert before == todo + [current];
      Popped(disk, main, visited, todo, deps, current);
      if current !in visited {
        var includes := ReadIncludes(disk, current);
        if includes.Failure? {
          return Failure(IoError);
        }
        VisitKeeps(disk, main, visited, todo, deps, current, includes.value);
        Shrinks(disk.contents.Keys, visited, current);
        visited := visited + {current};
        deps := deps + includes.value;
        todo := todo + includes.value;
      }
    }
    Finished(disk, main, visited, deps);
    res := Success(deps);
  }

  /** A popped file is a listed one, and nothing is lost if it has been visited. */
  lemma Popped(disk: Disk, main: File, visited: set<File>, todo: seq<File>, deps: seq<File>, current: File)
    requires Progress(disk, main, visited, todo + [current], deps)
    ensures Listed(disk, main, current)
    ensures current in visited ==> Progress(disk, main, visited, todo, deps)
  {
    assert current in todo + [current];
    assert forall f :: f in todo + [current] <==> f in todo || f == current;
  }

  lemma Finished(disk: Disk, main: File, visited: set<File>, deps: seq<File>)
    requires Progress(disk, main, visited, [], deps)
    ensures forall f :: f in deps <==> Reaches(disk, main, f)
    ensures forall f :: Listed(disk, main, f) ==> !Bad(disk, f)
  {
    assert forall f :: f in deps ==> f in visited;
    ClosedContainsReach(disk, main, Elements(deps));
  }

  lemma Shrinks(universe: set<File>, visited: set<File>, f: File)
    requires f in universe && f !in visited
    ensures |universe - (visited + {f})| < |universe - visited|
  {
    assert universe - visited == (universe - (visited + {f})) + {f};
  }

  lemma VisitKeeps(disk: Disk, main: File, visited: set<File>, todo: seq<File>, deps: seq<File>,
                   current: File, found: seq<File>)
    requires Progress(disk, main, visited, todo + [current], deps) && !Bad(disk, current)
    requires forall g :: g in found <==> Includes(disk, current, g)
    ensures Progress(disk, main, visited + {current}, todo + found, deps + found)
  {
    assert current in todo + [current];
    forall g | g in found ensures Reaches(disk, main, g) {
      ReachesStep(disk, main, current, g);
    }
    assert forall f :: f in todo + [current] <==> f in todo || f == current;
  }

  // ----- staleness

  /** f has changed since the artifact was built. */
  predicate Newer(disk: Disk, f: File, artifact: nat) {
    f in disk.modified && disk.modified[f] > artifact
  }

  /** Main first, then the dependencies, stopping at the first newer file or failure. */
  method NeedsRebuild(disk: Disk, deps: seq<File>, main: File, artifact: nat) returns (res: Result<bool, IoError>)
    ensures res == Success(true) <==> exists i :: NewerAt(disk, [main] + deps, artifact, i)
    ensures res == Success(false) <==>
      forall f :: f in [main] + deps ==> f in disk.modified && disk.modified[f] <= artifact
  {
    var all := [main] + deps;
    for i := 0 to |all|
      invariant forall j :: 0 <= j < i ==> all[j] in disk.modified && disk.modified[all[j]] <= artifact
    {
      if all[i] !in disk.modified {
        return Failure(IoError);
      }
      if disk.modified[all[i]] > artifact {
        assert NewerAt(disk, all, artifact, i);
        return Success(true);
      }
    }
    res := Success(false);
  }

  /** Position i is newer than the artifact, and all before it have a time. */
  predicate NewerAt(disk: Disk, all: seq<File>, artifact: nat, i: int) {
    0 <= i < |all| && Newer(disk, all[i], artifact) && forall j :: 0 <= j < i ==> all[j] in disk.modified
  }

  /** Some file of the list can be read, in turn with all before it, and is newer. */
  lemma NewerIsFound(disk: Disk, all: seq<File>, artifact: nat, f: File)
    requires f in all && Newer(disk, f, artifact) && forall g :: g in all ==> g in disk.modified
    ensures exists i :: NewerAt(disk, all, artifact, i)
  {
    var i :| 0 <= i < |all| && all[i] == f;
    assert NewerAt(disk, all, artifact, i);
  }

  /** Its includes and its change time can be read. */
  predicate Readable(disk: Disk, f: File) { !Bad(disk, f) && f in disk.modified }

  /** main and all that the includes in the files' text reach from it. */
  ghost predicate Documented(disk: Disk, main: File, f: File) { f == main || ReachesByText(disk, main, f) }

  /** The build decision. A listed file that cannot be read is an error, and so may be one
      without a time; otherwise a rebuild is due exactly if a listed file is newer. With all
      includes first that is a documented file; with another header it is main alone. */
  method CheckCircuit(disk: Disk, main: File, artifact: nat) returns (res: Result<bool, IoError>)
    ensures (exists f :: Listed(disk, main, f) && Bad(disk, f)) ==> res.Failure?
    ensures res == Success(false) <==>
      forall f :: Listed(disk, main, f) ==> Readable(disk, f) && !Newer(disk, f, artifact)
    ensures res == Success(true) ==> exists f :: Listed(disk, main, f) && Newer(disk, f, artifact)
    ensures (forall f :: Listed(disk, main, f) ==> !Bad(disk, f)) && Newer(disk, main, artifact) ==>
      res == Success(true)
    ensures (forall f :: Listed(disk, main, f) ==> Readable(disk, f)) ==> res.Success?
    ensures (AllIncludesFirst(disk, main) && forall f :: Documented(disk, main, f) ==> Readable(disk, f)) ==>
      res == Success(exists f :: Documented(disk, main, f) && Newer(disk, f, artifact))
    ensures main in disk.contents && main in disk.modified && !OpensWithInclude(disk.contents[main]) ==>
      res == Success(Newer(disk, main, artifact))
  {
    if AllIncludesFirst(disk, main) {
      IncludesFirstSuffices(disk, main);
      assert forall f :: Documented(disk, main, f) <==> Listed(disk, main, f);
    }
    if main in disk.contents && !OpensWithInclude(disk.contents[main]) {
      HeaderHidesIncludes(disk, main);
    }
    var deps := ExtractDependencies(disk, main);
    if deps.Failure? {
      ghost var f :| Listed(disk, main, f) && Bad(disk, f);
      assert !Readable(disk, f);
      return Failure(IoError);
    }
    ghost var all := [main] + deps.value;
    assert forall f :: f in all <==> Listed(disk, main, f);
    if Newer(disk, main, artifact) {
      assert NewerAt(disk, all, artifact, 0);
    }
    res := NeedsRebuild(disk, deps.value, main, artifact);
    if f :| f in all && Newer(disk, f, artifact) && forall g :: g in all ==> g in disk.modified {
      NewerIsFound(disk, all, artifact, f);
    }
  }

  // ----- against the documentation

  /** The pattern finds all includes of a file exactly if none comes after its first statement. */
  lemma {:induction false} CapturesAllIff(content: seq<Statement>)
    ensures Captures(content) == AllIncludes(content)
      <==> forall i :: 1 <= i < |content| ==> !content[i].Include?
  {
    if content != [] {
      NoIncludesIff(content[1..]);
      var first := if content[0].Include? then [content[0].path] else [];
      assert AllIncludes(content) == first + AllIncludes(content[1..]);
      assert Captures(content) == first;
      assert forall i :: 1 <= i < |content| ==> content[i] == content[1..][i - 1];
      if AllIncludes(content[1..]) == [] {
        assert first + [] == first;
      }
    }
  }

  lemma {:induction false} NoIncludesIff(content: seq<Statement>)
    ensures AllIncludes(content) == [] <==> forall i :: 0 <= i < |content| ==> !content[i].Include?
  {
    if content != [] {
      NoIncludesIff(content[1..]);
      assert forall i :: 1 <= i < |content| ==> content[i] == content[1..][i - 1];
    }
  }

  /** g is included by f somewhere in its text. */
  predicate IncludesByText(disk: Disk, f: File, g: File) {
    f in disk.contents &&
    exists path :: path in AllIncludes(disk.contents[f]) && disk.resolve(path, f) == Resolved(g)
  }

  ghost predicate TextChain(disk: Disk, p: seq<File>) {
    forall i :: 0 <= i < |p| - 1 ==> IncludesByText(disk, p[i], p[i + 1])
  }

  ghost predicate ReachesByText(disk: Disk, f: File, g: File) {
    exists p: seq<File> :: |p| >= 2 && p[0] == f && p[|p| - 1] == g && TextChain(disk, p)
  }

  lemma CapturedIsInText(disk: Disk, f: File, g: File)
    requires Includes(disk, f, g)
    ensures IncludesByText(disk, f, g)
  {
    var content := disk.contents[f];
    var path :| path in Captures(content) && disk.resolve(path, f) == Resolved(g);
    assert AllIncludes(content) == [content[0].path] + AllIncludes(content[1..]);
    assert path in AllIncludes(content);
  }

  /** No reached file has an include, seen or unseen, that leads outside the reached files. */
  ghost predicate ClosedByText(disk: Disk, main: File) {
    forall f, g :: (f == main || Reaches(disk, main, f)) && IncludesByText(disk, f, g) ==> Reaches(disk, main, g)
  }

  /** The extracted files are the documented ones, all files reached by the includes in the
      text, exactly if no reached file has an include that leads outside the list. */
  lemma ExtractionCompleteIff(disk: Disk, main: File)
    ensures (forall g :: ReachesByText(disk, main, g) <==> Reaches(disk, main, g)) <==> ClosedByText(disk, main)
  {
    if ClosedByText(disk, main) {
      forall g ensures ReachesByText(disk, main, g) <==> Reaches(disk, main, g) {
        if ReachesByText(disk, main, g) {
          var p: seq<File> :| |p| >= 2 && p[0] == main && p[|p| - 1] == g && TextChain(disk, p);
          TextChainInside(disk, main, p, |p| - 1);
        }
        if Reaches(disk, main, g) { ReachIsByText(disk, main, g); }
      }
    }
    if forall g :: ReachesByText(disk, main, g) <==> Reaches(disk, main, g) {
      forall f, g | (f == main || Reaches(disk, main, f)) && IncludesByText(disk, f, g)
        ensures Reaches(disk, main, g)
      {
        TextStep(disk, main, f, g);
      }
    }
  }

  lemma {:induction false} TextChainInside(disk: Disk, main: File, p: seq<File>, i: nat)
    requires ClosedByText(disk, main) && TextChain(disk, p) && 0 < i < |p| && p[0] == main
    ensures Reaches(disk, main, p[i])
  {
    if i > 1 { TextChainInside(disk, main, p, i - 1); }
    assert IncludesByText(disk, p[i - 1], p[i]);
  }

  lemma ReachIsByText(disk: Disk, f: File, g: File)
    requires Reaches(disk, f, g)
    ensures ReachesByText(disk, f, g)
  {
    var p: seq<File> :| |p| >= 2 && p[0] == f && p[|p| - 1] == g && Chain(disk, p);
    forall i | 0 <= i < |p| - 1 ensures IncludesByText(disk, p[i], p[i + 1]) {
      assert Includes(disk, p[i], p[i + 1]);
      CapturedIsInText(disk, p[i], p[i + 1]);
    }
    assert TextChain(disk, p);
  }

  lemma TextStep(disk: Disk, main: File, f: File, g: File)
    requires f == main || ReachesByText(disk, main, f)
    requires IncludesByText(disk, f, g)
    ensures ReachesByText(disk, main, g)
  {
    var p: seq<File> := [main];
    if f != main {
      p :| |p| >= 2 && p[0] == main && p[|p| - 1] == f && TextChain(disk, p);
    }
    var q := p + [g];
    forall i | 0 <= i < |q| - 1 ensures IncludesByText(disk, q[i], q[i + 1]) {
      if i < |p| - 1 { assert IncludesByText(disk, p[i], p[i + 1]); }
    }
    assert |q| >= 2 && q[0] == main && q[|q| - 1] == g && TextChain(disk, q);
  }

  lemma ReachesStartsWithInclude(disk: Disk, f: File, g: File)
    requires Reaches(disk, f, g)
    ensures exists h :: Includes(disk, f, h)
  {
    var p: seq<File> :| |p| >= 2 && p[0] == f && p[|p| - 1] == g && Chain(disk, p);
    assert Includes(disk, p[0], p[1]);
  }

  /** A file that starts with anything else, as with a pragma, has no extracted dependency
      at all, whatever it includes. */
  lemma HeaderHidesIncludes(disk: Disk, main: File)
    requires main in disk.contents && !OpensWithInclude(disk.contents[main])
    ensures forall g :: !Reaches(disk, main, g)
  {
    forall g | Reaches(disk, main, g) ensures false {
      ReachesStartsWithInclude(disk, main, g);
    }
  }

  /** A pragma and one include: the included file is not in the list. */
  lemma PragmaThenInclude(disk: Disk, main: File, path: string, g: File)
    requires main in disk.contents && disk.contents[main] == [Other, Include(path)]
    requires disk.resolve(path, main) == Resolved(g)
    ensures ReachesByText(disk, main, g) && !Reaches(disk, main, g)
  {
    assert disk.contents[main][1..] == [Include(path)];
    assert AllIncludes([Include(path)]) == [path] + AllIncludes([]);
    assert path in AllIncludes(disk.contents[main]);
    TextStep(disk, main, main, g);
    HeaderHidesIncludes(disk, main);
  }

  /** A file whose text has no include after its first statement. */
  predicate IncludesFirst(disk: Disk, f: File) {
    f in disk.contents ==> forall i :: 1 <= i < |disk.contents[f]| ==> !disk.contents[f][i].Include?
  }

  /** No file that main reaches by its text has an include after its first statement. */
  ghost predicate AllIncludesFirst(disk: Disk, main: File) {
    forall f :: f == main || ReachesByText(disk, main, f) ==> IncludesFirst(disk, f)
  }

  lemma FirstIsListed(disk: Disk, f: File, g: File)
    requires IncludesFirst(disk, f) && IncludesByText(disk, f, g)
    ensures Includes(disk, f, g)
  {
    CapturesAllIff(disk.contents[f]);
  }

  /** A guard on the text alone: if all includes come first, the list is the documented one. */
  lemma IncludesFirstSuffices(disk: Disk, main: File)
    requires AllIncludesFirst(disk, main)
    ensures forall g :: ReachesByText(disk, main, g) <==> Reaches(disk, main, g)
  {
    forall f, g | (f == main || Reaches(disk, main, f)) && IncludesByText(disk, f, g)
      ensures Reaches(disk, main, g)
    {
      if f != main { ReachIsByText(disk, main, f); }
      FirstIsListed(disk, f, g);
      ReachesStep(disk, main, f, g);
    }
    ExtractionCompleteIff(disk, main);
  }
}
