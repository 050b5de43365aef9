/** Normalising a workspace-relative path (src/sfmtool/_filenames.py:161-208). */
module WorkspacePath {

  datatype Outcome = Accepted(path: string) | NotRelative | DrivePath | Escapes

  // ----- strings -----

  predicate StartsWith(s: string, prefix: string) {
    |prefix| <= |s| && s[..|prefix|] == prefix
  }

  predicate Contains(s: string, part: string) {
    exists i :: 0 <= i < |s| && OccursAt(s, part, i)
  }

  predicate OccursAt(s: string, part: string, i: nat) {
    i + |part| <= |s| && s[i..i + |part|] == part
  }

  /** `s.replace("\\", "/")`. */
  function Slashed(s: string): (r: string)
    ensures |r| == |s| && '\\' !in r
  {
    seq(|s|, i requires 0 <= i < |s| => if s[i] == '\\' then '/' else s[i])
  }

  /** `s.split("/")`. */
  function Split(s: string): (parts: seq<string>)
    ensures |parts| > 0
    ensures forall p :: 0 <= p < |parts| ==> '/' !in parts[p]
  {
    if |s| == 0 then [""]
    else
      var rest := Split(s[1..]);
      if s[0] == '/' then [""] + rest else [[s[0]] + rest[0]] + rest[1..]
  }

  /** `"/".join(parts)`. */
  function Join(parts: seq<string>): string {
    if |parts| == 0 then ""
    else if |parts| == 1 then parts[0]
    else parts[0] + "/" + Join(parts[1..])
  }

  ghost predicate NoSlashes(parts: seq<string>) {
    forall p :: 0 <= p < |parts| ==> '/' !in parts[p]
  }

  lemma {:induction false} SplitOfName(s: string)
    requires '/' !in s
    ensures Split(s) == [s]
  {
    if |s| > 0 {
      SplitOfName(s[1..]);
      assert s[0] in s && s == [s[0]] + s[1..];
    }
  }

  lemma {:induction false} SplitAtSlash(a: string, b: string)
    requires '/' !in a
    ensures Split(a + "/" + b) == [a] + Split(b)
  {
    var s := a + "/" + b;
    if |a| == 0 {
      assert s[1..] == b;
    } else {
      assert s[1..] == a[1..] + "/" + b;
      SplitAtSlash(a[1..], b);
      assert a[0] in a && a == [a[0]] + a[1..];
    }
  }

  /** Only backslashes change, each to a slash. */
  lemma SlashedAt(s: string, i: nat)
    requires i < |s|
    ensures s[i] != '\\' ==> Slashed(s)[i] == s[i]
    ensures s[i] == '\\' ==> Slashed(s)[i] == '/'
  {
  }

  /** The parts joined are the string. */
  lemma {:induction false} JoinOfSplit(s: string)
    ensures Join(Split(s)) == s
  {
    if |s| > 0 {
      var rest := Split(s[1..]);
      JoinOfSplit(s[1..]);
      if s[0] == '/' {
        assert ([""] + rest)[1..] == rest;
        assert s == "" + "/" + s[1..];
      } else {
        JoinPutsFirst(s[0], rest);
        assert s == [s[0]] + s[1..];
      }
    }
  }

  lemma {:induction false} JoinPutsFirst(c: char, parts: seq<string>)
    requires |parts| > 0
    ensures Join([[c] + parts[0]] + parts[1..]) == [c] + Join(parts)
  {
    var longer := [[c] + parts[0]] + parts[1..];
    assert longer[1..] == parts[1..];
  }

  lemma {:induction false} SplitOfJoin(parts: seq<string>)
    requires |parts| > 0 && NoSlashes(parts)
    ensures Split(Join(parts)) == parts
  {
    if |parts| == 1 {
      SplitOfName(parts[0]);
    } else {
      SplitAtSlash(parts[0], Join(parts[1..]));
      SplitOfJoin(parts[1..]);
    }
  }

  // ----- the component stack -----

  /** What one component does to the stack. */
  function Push(stack: seq<string>, part: string): seq<string> {
    if part == ".." then
      if |stack| > 0 && stack[|stack| - 1] != ".." then stack[..|stack| - 1] else stack + [part]
    else if part == "." || part == "" then stack
    else stack + [part]
  }

  function Collapse(parts: seq<string>): seq<string> {
    if |parts| == 0 then [] else Push(Collapse(parts[..|parts| - 1]), parts[|parts| - 1])
  }

  predicate IsName(part: string) {
    part != "" && part != "." && part != ".."
  }

  /** The parents climbed to, then the names descended to. */
  ghost predicate IsStack(stack: seq<string>, up: nat) {
    && up <= |stack|
    && (forall i :: 0 <= i < up ==> stack[i] == "..")
    && (forall i :: up <= i < |stack| ==> IsName(stack[i]))
  }

  // ----- where a path leads, without the stack -----

  /** How far a walk is below its start, counting names down and parents up. */
  function Depth(parts: seq<string>): int {
    if |parts| == 0 then 0
    else
      var last := parts[|parts| - 1];
      Depth(parts[..|parts| - 1]) + (if last == ".." then -1 else if IsName(last) then 1 else 0)
  }

  /** The highest point a walk climbs above its start. */
  function Climb(parts: seq<string>): (up: nat)
    ensures -Depth(parts) <= up
  {
    if |parts| == 0 then 0
    else
      var before := Climb(parts[..|parts| - 1]);
      if -Depth(parts) > before then -Depth(parts) else before
  }

  /** Climbing is exactly dropping below the start at some prefix. */
  lemma {:induction false} ClimbIsAPrefix(parts: seq<string>)
    ensures forall n :: 0 <= n <= |parts| ==> -Depth(parts[..n]) <= Climb(parts)
    ensures exists n :: 0 <= n <= |parts| && Climb(parts) == -Depth(parts[..n])
  {
    var k := |parts|;
    assert parts[..k] == parts;
    if k > 0 {
      var front := parts[..k - 1];
      ClimbIsAPrefix(front);
      forall n | 0 <= n <= k ensures -Depth(parts[..n]) <= Climb(parts) {
        if n < k {
          assert parts[..n] == front[..n];
        }
      }
      var m :| 0 <= m <= |front| && Climb(front) == -Depth(front[..m]);
      assert parts[..m] == front[..m];
    } else {
      assert parts[..0] == [];
    }
  }

  /** A lexical location: some directories above the start, then a path of names down. */
  datatype Location = Location(up: nat, down: seq<string>)

  function Follow(parts: seq<string>): Location {
    if |parts| == 0 then Location(0, [])
    else Take(Follow(parts[..|parts| - 1]), parts[|parts| - 1])
  }

  function Take(at: Location, part: string): Location {
    if IsName(part) then Location(at.up, at.down + [part])
    else if part != ".." then at
    else if |at.down| > 0 then Location(at.up, at.down[..|at.down| - 1])
    else Location(at.up + 1, [])
  }

  /** A name leads down, ".." back up or, from where no name leads, above; "." and "" stay. */
  lemma {:induction false} FollowOneMore(parts: seq<string>, part: string)
    ensures var at, next := Follow(parts), Follow(parts + [part]);
            && Follow([]) == Location(0, [])
            && (part == "" || part == "." ==> next == at)
            && (part == ".." && |at.down| > 0 ==> next.up == at.up && next.down + [at.down[|at.down| - 1]] == at.down)
            && (part == ".." && at.down == [] ==> next == Location(at.up + 1, []))
            && (part != "" && part != "." && part != ".." ==> next == Location(at.up, at.down + [part]))
  {
    assert (parts + [part])[..|parts|] == parts;
  }

  /** The stack spells out the location: its parents are how far the walk has climbed, and its
      names lead down from there. */
  lemma {:induction false} StackIsLocation(parts: seq<string>)
    ensures var stack := Collapse(parts);
            && IsStack(stack, Climb(parts)) && |stack| == Climb(parts) + (Depth(parts) + Climb(parts))
            && Follow(parts) == Location(Climb(parts), stack[Climb(parts)..])
  {
    if |parts| > 0 {
      var front := parts[..|parts| - 1];
      StackIsLocation(front);
      PushIsTake(Collapse(front), Climb(front), parts[|parts| - 1]);
    }
  }

  /** One component does to the stack what it does to the location. */
  lemma PushIsTake(stack: seq<string>, up: nat, part: string)
    requires IsStack(stack, up)
    ensures var next, at := Push(stack, part), Take(Location(up, stack[up..]), part);
            && IsStack(next, at.up) && next[at.up..] == at.down
            && |next| == at.up + |at.down|
            && at.up == (if part == ".." && |stack| == up then up + 1 else up)
            && |at.down| == |stack| - up + (if IsName(part) then 1 else if part == ".." && |stack| > up then -1 else 0)
  {
    if part == ".." {
      assert |stack| > up ==> IsName(stack[|stack| - 1]);
      assert 0 < |stack| && |stack| == up ==> stack[|stack| - 1] == "..";
    }
  }

  /** The walk of a stack leads where the stack says. */
  lemma {:induction false} FollowStack(stack: seq<string>, up: nat)
    requires IsStack(stack, up)
    ensures Follow(stack) == Location(up, stack[up..])
    decreases |stack|
  {
    if |stack| > 0 {
      var k := |stack| - 1;
      FollowStack(stack[..k], if up == k + 1 then k else up);
      TakeLast(stack, up);
    }
  }

  lemma TakeLast(stack: seq<string>, up: nat)
    requires IsStack(stack, up) && |stack| > 0
    ensures var k := |stack| - 1;
            var above := if up == k + 1 then k else up;
            Take(Location(above, stack[..k][above..]), stack[k]) == Location(up, stack[up..])
  {
    var k := |stack| - 1;
    if up == k + 1 {
      assert stack[k] == ".." && !IsName(stack[k]);
    } else {
      assert IsName(stack[k]);
      assert stack[up..] == stack[..k][up..] + [stack[k]];
    }
  }

  /** ... and collapses to itself. */
  lemma {:induction false} CollapseStack(stack: seq<string>, up: nat)
    requires IsStack(stack, up)
    ensures Collapse(stack) == stack
    decreases |stack|
  {
    if |stack| > 0 {
      var k := |stack| - 1;
      CollapseStack(stack[..k], if up == k + 1 then k else up);
      PushLast(stack, up);
    }
  }

  lemma PushLast(stack: seq<string>, up: nat)
    requires IsStack(stack, up) && |stack| > 0
    ensures Push(stack[..|stack| - 1], stack[|stack| - 1]) == stack
  {
    var k := |stack| - 1;
    assert stack == stack[..k] + [stack[k]];
    if up == k + 1 {
      assert k > 0 ==> stack[k - 1] == "..";
    } else {
      assert IsName(stack[k]);
    }
  }

  // ----- the two checks on the joined path -----

  /** A component the checks take for a climb: ".." itself, and any name that begins with it. */
  predicate Dotted(part: string) {
    StartsWith(part, "..")
  }

  lemma DottedSays(part: string)
    ensures Dotted(part) <==> |part| >= 2 && part[0] == '.' && part[1] == '.'
  {
    if |part| >= 2 {
      assert part[..2] == [part[0], part[1]];
    }
  }

  lemma {:induction false} JoinStartsDotted(parts: seq<string>)
    requires NoSlashes(parts)
    ensures Dotted(Join(parts)) <==> |parts| > 0 && Dotted(parts[0])
  {
    if |parts| > 1 {
      var s := Join(parts);
      assert s == parts[0] + "/" + Join(parts[1..]);
      assert s[|parts[0]|] == '/';
      if |parts[0]| >= 2 {
        assert s[..2] == parts[0][..2];
      } else {
        assert |s| >= 2 ==> s[..2][|parts[0]|] == '/';
      }
    }
  }

  lemma OccursInTail(a: string, b: string, i: nat)
    requires '/' !in a && i < |a + "/" + b|
    ensures OccursAt(a + "/" + b, "/..", i)
        <==> (i == |a| && Dotted(b)) || (i > |a| && OccursAt(b, "/..", i - |a| - 1))
  {
    var s := a + "/" + b;
    if i < |a| {
      assert s[i] == a[i] && a[i] in a;
      assert i + 3 <= |s| ==> s[i..i + 3][0] != '/';
    } else if i == |a| {
      if i + 3 <= |s| {
        assert s[i..i + 3] == "/" + b[..2];
        assert s[i..i + 3] == "/.." <==> b[..2] == ".." by {
          assert ("/" + b[..2])[1..] == b[..2];
        }
      }
    } else {
      var j := i - |a| - 1;
      if i + 3 <= |s| {
        assert s[i..i + 3] == b[j..j + 3];
      }
    }
  }

  lemma {:induction false} JoinContainsDotted(parts: seq<string>)
    requires NoSlashes(parts)
    ensures Contains(Join(parts), "/..") <==> exists p :: 0 < p < |parts| && Dotted(parts[p])
  {
    if |parts| == 1 {
      forall i | 0 <= i < |parts[0]| ensures !OccursAt(parts[0], "/..", i) {
        assert parts[0][i] in parts[0];
        assert i + 3 <= |parts[0]| ==> parts[0][i..i + 3][0] != '/';
      }
    } else if |parts| > 1 {
      var a, rest := parts[0], parts[1..];
      var b := Join(rest);
      JoinStartsDotted(rest);
      JoinContainsDotted(rest);
      var s := a + "/" + b;
      assert Join(parts) == s;
      forall i | 0 <= i < |s|
        ensures OccursAt(s, "/..", i) <==> (i == |a| && Dotted(b)) || (i > |a| && OccursAt(b, "/..", i - |a| - 1))
      {
        OccursInTail(a, b, i);
      }
      if Contains(b, "/..") {
        var j :| 0 <= j < |b| && OccursAt(b, "/..", j);
        assert OccursAt(s, "/..", j + |a| + 1);
        var p :| 0 < p < |rest| && Dotted(rest[p]);
        assert Dotted(parts[p + 1]);
      }
      if Dotted(b) {
        assert OccursAt(s, "/..", |a|);
        assert Dotted(parts[1]);
      }
      if exists p :: 0 < p < |parts| && Dotted(parts[p]) {
        var p :| 0 < p < |parts| && Dotted(parts[p]);
        assert rest[p - 1] == parts[p];
      }
    }
  }

  // ----- normalising -----

  /** `ntpath.isabs`, with the rooted paths either version of it or the checks beside it refuse. */
  predicate Rooted(s: string) {
    || (|s| > 0 && (s[0] == '/' || s[0] == '\\'))
    || (|s| > 2 && s[1] == ':' && (s[2] == '/' || s[2] == '\\'))
  }

  predicate HasDrive(s: string) {
    |s| > 1 && s[1] == ':'
  }

  function Components(s: string): seq<string> {
    Split(Slashed(s))
  }

  function Normalize(s: string): Outcome {
    if Rooted(s) then NotRelative
    else if HasDrive(s) then DrivePath
    else
      var normalized := Join(Collapse(Components(s)));
      if Dotted(normalized) || Contains(normalized, "/..") then Escapes else Accepted(normalized)
  }

  method NormalizeWorkspacePath(s: string) returns (out: Outcome)
    ensures out == Normalize(s)
  {
    if Rooted(s) {
      return NotRelative;
    }
    if HasDrive(s) {
      return DrivePath;
    }
    var parts := Split(Slashed(s));
    var normalized: seq<string> := [];
    for i := 0 to |parts|
      invariant normalized == Collapse(parts[..i])
    {
      var part := parts[i];
      assert parts[..i + 1][..i] == parts[..i];
      if part == ".." {
        if |normalized| > 0 && normalized[|normalized| - 1] != ".." {
          normalized := normalized[..|normalized| - 1];
        } else {
          normalized := normalized + [part];
        }
      } else if part == "." || part == "" {
        continue;
      } else {
        normalized := normalized + [part];
      }
    }
    assert parts[..|parts|] == parts;
    var path := Join(normalized);
    if Dotted(path) {
      return Escapes;
    }
    if Contains(path, "/..") {
      return Escapes;
    }
    out := Accepted(path);
  }

  /** The components are what the slashes of either kind keep apart. */
  lemma ComponentsAre(s: string)
    ensures Join(Components(s)) == Slashed(s) && |Components(s)| > 0
    ensures forall p :: 0 <= p < |Components(s)| ==> '/' !in Components(s)[p]
  {
    JoinOfSplit(Slashed(s));
  }

  // ----- what is accepted, and what it means -----

  ghost predicate Without(parts: seq<string>, c: char) {
    forall p :: 0 <= p < |parts| ==> c !in parts[p]
  }

  lemma {:induction false} CollapseKeepsOut(parts: seq<string>, c: char)
    requires Without(parts, c) && c != '.'
    ensures Without(Collapse(parts), c)
  {
    if |parts| > 0 {
      CollapseKeepsOut(parts[..|parts| - 1], c);
    }
  }

  lemma {:induction false} SplitKeepsOut(s: string, c: char)
    requires c !in s
    ensures Without(Split(s), c)
  {
    if |s| > 0 {
      assert s[0] in s;
      SplitKeepsOut(s[1..], c);
    }
  }

  lemma {:induction false} JoinKeepsOut(parts: seq<string>, c: char)
    requires Without(parts, c) && c != '/'
    ensures c !in Join(parts)
  {
    if |parts| > 1 {
      JoinKeepsOut(parts[1..], c);
    }
  }

  ghost predicate AnyDotted(stack: seq<string>) {
    exists p :: 0 <= p < |stack| && Dotted(stack[p])
  }

  /** The components the loop leaves: no slash of either kind in any. */
  lemma StackOf(s: string)
    ensures var stack := Collapse(Components(s));
            && IsStack(stack, Climb(Components(s)))
            && Without(stack, '/') && Without(stack, '\\') && NoSlashes(stack)
  {
    StackIsLocation(Components(s));
    CollapseKeepsOut(Components(s), '/');
    SplitKeepsOut(Slashed(s), '\\');
    CollapseKeepsOut(Components(s), '\\');
  }

  lemma ClimbIsDotted(stack: seq<string>, up: nat)
    requires IsStack(stack, up)
    ensures up > 0 ==> AnyDotted(stack)
  {
    if up > 0 {
      assert Dotted(stack[0]);
    }
  }

  lemma {:induction false} ChecksAreDotted(stack: seq<string>)
    requires NoSlashes(stack)
    ensures Dotted(Join(stack)) || Contains(Join(stack), "/..") <==> AnyDotted(stack)
  {
    JoinStartsDotted(stack);
    JoinContainsDotted(stack);
  }

  /** A path that starts with a slash of either kind, or is a drive's with one after it, is refused as
      not relative; one of a drive without, as a drive path. */
  lemma RefusedAtStart(s: string)
    ensures Normalize(s).NotRelative?
       <==> || (|s| > 0 && (s[0] == '/' || s[0] == '\\'))
            || (|s| > 2 && s[1] == ':' && (s[2] == '/' || s[2] == '\\'))
    ensures Normalize(s).DrivePath?
       <==> && |s| > 1 && s[1] == ':' && s[0] != '/' && s[0] != '\\'
            && (|s| > 2 ==> s[2] != '/' && s[2] != '\\')
  {
  }

  /** Exactly what is accepted: a relative path without a drive, whose walk never drops above its
      start, and none of the names it leads down to begins with "..". */
  lemma AcceptedExactly(s: string)
    ensures Normalize(s).Accepted?
       <==> !(|s| > 0 && (s[0] == '/' || s[0] == '\\')) && !(|s| > 1 && s[1] == ':')
            && (forall n :: 0 <= n <= |Components(s)| ==> Depth(Components(s)[..n]) >= 0)
            && (forall p :: 0 <= p < |Follow(Components(s)).down| ==> !Dotted(Follow(Components(s)).down[p]))
  {
    var parts, stack := Components(s), Collapse(Components(s));
    StackOf(s);
    StackIsLocation(parts);
    ChecksAreDotted(stack);
    ClimbIsAPrefix(parts);
    if Climb(parts) > 0 {
      assert Dotted(stack[0]);
      var n :| 0 <= n <= |parts| && Climb(parts) == -Depth(parts[..n]);
      assert Depth(parts[..n]) < 0;
    } else {
      forall n | 0 <= n <= |parts| ensures Depth(parts[..n]) >= 0 {
        assert -Depth(parts[..n]) <= Climb(parts);
      }
    }
  }

  /** A walk that drops below the root at some prefix is always rejected. */
  lemma EscapingIsRejected(s: string, n: nat)
    requires n <= |Components(s)| && Depth(Components(s)[..n]) < 0
    ensures !Normalize(s).Accepted?
  {
    AcceptedExactly(s);
  }

  lemma DottedNameAlone()
    ensures Components("..a") == ["..a"]
  {
    assert Slashed("..a") == "..a";
    SplitOfName("..a");
  }

  lemma OneName(name: string)
    requires IsName(name)
    ensures Collapse([name]) == [name] && Climb([name]) == 0
  {
    assert [name][..0] == [];
    assert Collapse([]) == [] && Depth([]) == 0 && Climb([]) == 0;
  }

  /** The rejection goes further than escaping: a plain name that begins with ".." is refused. */
  lemma DottedNameIsRejected()
    ensures Normalize("..a") == Escapes && Climb(Components("..a")) == 0
  {
    DottedNameAlone();
    OneName("..a");
    assert Join(["..a"]) == "..a";
    assert StartsWith("..a", "..") by {
      assert "..a"[..2] == "..";
    }
  }

  /** An accepted result has no empty, "." or ".." component and leads where the input led. */
  lemma ResultLeadsThere(s: string)
    requires Normalize(s).Accepted?
    ensures var path := Normalize(s).path;
            && (path == "" || forall p :: 0 <= p < |Split(path)| ==> IsName(Split(path)[p]))
            && '\\' !in path
            && Follow(Split(path)) == Follow(Components(s))
            && Follow(Components(s)).up == 0
  {
    var parts, stack := Components(s), Collapse(Components(s));
    StackOf(s);
    StackIsLocation(parts);
    ChecksAreDotted(stack);
    ClimbIsDotted(stack, Climb(parts));
    JoinKeepsOut(stack, '\\');
    JoinLeadsDown(stack);
  }

  lemma {:induction false} JoinLeadsDown(stack: seq<string>)
    requires IsStack(stack, 0) && NoSlashes(stack)
    ensures var path := Join(stack);
            && (path == "" || forall p :: 0 <= p < |Split(path)| ==> IsName(Split(path)[p]))
            && Follow(Split(path)) == Location(0, stack)
  {
    if |stack| > 0 {
      SplitOfJoin(stack);
      FollowStack(stack, 0);
    } else {
      EmptyLeadsNowhere();
    }
  }

  lemma EmptyLeadsNowhere()
    ensures Split("") == [""] && Follow([""]) == Location(0, [])
  {
    assert [""][..0] == [];
    assert Follow([]) == Location(0, []);
  }

  lemma SlashedIsSame(s: string)
    requires '\\' !in s
    ensures Slashed(s) == s
  {
  }

  lemma {:induction false} NotRooted(stack: seq<string>, path: string)
    requires |stack| > 0 && IsStack(stack, 0) && path == Join(stack) && NoSlashes(stack) && '\\' !in path
    ensures |path| > 0 && path[0] != '/' && path[0] != '\\'
  {
    assert IsName(stack[0]);
    assert path[0] == stack[0][0] && stack[0][0] in stack[0];
    assert path[0] in path;
  }

  ghost predicate IsFixed(path: string) {
    if HasDrive(path) then !Normalize(path).Accepted? else Normalize(path) == Accepted(path)
  }

  lemma EmptyIsFixed()
    ensures IsFixed("")
  {
    assert Components("") == [""] && [""][..0] == [];
    assert Collapse([""]) == [];
  }

  /** Names joined collapse to themselves. */
  lemma {:induction false} JoinedIsFixed(stack: seq<string>)
    requires |stack| > 0 && IsStack(stack, 0) && NoSlashes(stack) && '\\' !in Join(stack) && !AnyDotted(stack)
    ensures IsFixed(Join(stack))
  {
    SlashedIsSame(Join(stack));
    SplitOfJoin(stack);
    CollapseStack(stack, 0);
    NotRooted(stack, Join(stack));
    ChecksAreDotted(stack);
  }

  /** Normalising a result again changes nothing, unless its second character makes it read as a
      drive; then it is refused. */
  lemma NormalizeTwice(s: string)
    requires Normalize(s).Accepted?
    ensures var path := Normalize(s).path;
            if HasDrive(path) then !Normalize(path).Accepted? else Normalize(path) == Accepted(path)
  {
    var stack := Collapse(Components(s));
    ResultLeadsThere(s);
    StackOf(s);
    ChecksAreDotted(stack);
    ClimbIsDotted(stack, Climb(Components(s)));
    if |stack| == 0 {
      EmptyIsFixed();
    } else {
      JoinedIsFixed(stack);
    }
    assert IsFixed(Normalize(s).path);
  }

  /** Such a result: "./a:b" is accepted as "a:b", which reads as a drive. */
  lemma ResultCanReadAsDrive()
    ensures Normalize("./a:b") == Accepted("a:b") && Normalize("a:b") == DrivePath
  {
    SlashedIsSame("./a:b");
    DotThenName();
    NoDotsWithin();
    assert "./a:b"[1] == '/' && "a:b"[1] == ':';
    assert Components("./a:b") == [".", "a:b"];
    assert Join(["a:b"]) == "a:b";
  }

  lemma DotThenName()
    ensures Split("./a:b") == [".", "a:b"] && Collapse([".", "a:b"]) == ["a:b"]
  {
    assert "./a:b" == "." + "/" + "a:b";
    SplitAtSlash(".", "a:b");
    SplitOfName("a:b");
    assert [".", "a:b"][..1] == ["."] && ["."][..0] == [];
    assert Collapse(["."]) == [];
  }

  lemma NoDotsWithin()
    ensures !Dotted("a:b") && !Contains("a:b", "/..")
  {
    assert "a:b"[..2][0] == 'a' && ".."[0] == '.';
    forall i | 0 <= i < |"a:b"| ensures !OccursAt("a:b", "/..", i) {
      assert "a:b"[i] != '/';
      assert i + 3 <= |"a:b"| ==> "a:b"[i..i + 3][0] != '/';
    }
  }
}
