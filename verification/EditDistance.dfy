/** Flag suggestions of the command line (apps/cli/src/options.ts, lines 250-281). */
module EditDistance {
  import opened Reasons
  import opened Numbers

  /** Levenshtein's recurrence on last characters. */
  function Distance(a: string, b: string): nat
    decreases |a| + |b|
  {
    if a == [] then |b|
    else if b == [] then |a|
    else
      var a', b' := a[..|a| - 1], b[..|b| - 1];
      Min(Min(Distance(a, b') + 1, Distance(a', b) + 1),
          Distance(a', b') + if a[|a| - 1] == b[|b| - 1] then 0 else 1)
  }

  /** The distances of one prefix of `a` to every prefix of `b`. */
  ghost predicate IsRow(row: seq<nat>, a: string, b: string) {
    && |row| <= |b| + 1
    && forall j | 0 <= j < |row| :: row[j] == Distance(a, b[..j])
  }

  /** The iterative form that keeps only the previous row. */
  method ComputeDistance(a: string, b: string) returns (d: nat)
    ensures d == Distance(a, b)
  {
    var previous: seq<nat> := seq(|b| + 1, j requires 0 <= j => j);
    for i := 1 to |a| + 1
      invariant |previous| == |b| + 1 && IsRow(previous, a[..i - 1], b)
    {
      previous := NextRow(previous, a, b, i);
    }
    assert a[..|a|] == a && b[..|b|] == b;
    return previous[|b|];
  }

  method NextRow(previous: seq<nat>, a: string, b: string, i: nat) returns (current: seq<nat>)
    requires 1 <= i <= |a| && |previous| == |b| + 1 && IsRow(previous, a[..i - 1], b)
    ensures |current| == |b| + 1 && IsRow(current, a[..i], b)
  {
    current := [i];
    assert b[..0] == [] && Distance(a[..i], []) == i;
    for j := 1 to |b| + 1
      invariant |current| == j && IsRow(current, a[..i], b)
    {
      CellIsDistance(previous, current, a, b, i, j);
      var substitution := previous[j - 1] + if a[i - 1] == b[j - 1] then 0 else 1;
      current := current + [Min(Min(current[j - 1] + 1, previous[j] + 1), substitution)];
    }
  }

  /** One more cell of the table. */
  lemma CellIsDistance(previous: seq<nat>, current: seq<nat>, a: string, b: string, i: nat, j: nat)
    requires 1 <= i <= |a| && 1 <= j <= |b| && |previous| == |b| + 1 && |current| == j
    requires IsRow(previous, a[..i - 1], b) && IsRow(current, a[..i], b)
    ensures var substitution := previous[j - 1] + if a[i - 1] == b[j - 1] then 0 else 1;
            IsRow(current + [Min(Min(current[j - 1] + 1, previous[j] + 1), substitution)], a[..i], b)
  {
    DistanceStep(a, b, i, j);
    RowGrows(current, a[..i], b);
  }

  lemma RowGrows(row: seq<nat>, a: string, b: string)
    requires IsRow(row, a, b) && |row| <= |b|
    ensures IsRow(row + [Distance(a, b[..|row|])], a, b)
  {}

  /** The recurrence on prefixes. */
  lemma DistanceStep(a: string, b: string, i: nat, j: nat)
    requires 1 <= i <= |a| && 1 <= j <= |b|
    ensures Distance(a[..i], b[..j]) ==
            Min(Min(Distance(a[..i], b[..j - 1]) + 1, Distance(a[..i - 1], b[..j]) + 1),
                Distance(a[..i - 1], b[..j - 1]) + if a[i - 1] == b[j - 1] then 0 else 1)
  {
    TakeTake(a, i);
    TakeTake(b, j);
  }

  lemma TakeTake(s: string, i: nat)
    requires 1 <= i <= |s|
    ensures s[..i] != [] && s[..i][|s[..i]| - 1] == s[i - 1]
    ensures s[..i][..|s[..i]| - 1] == s[..i - 1]
  {}

  // ---------------------------------------------------------------- edit scripts

  /** One edit of one character, at an absolute position. */
  datatype Edit = Insert(at: nat, c: char) | Delete(at: nat) | Replace(at: nat, c: char)

  predicate Applies(e: Edit, s: string) {
    match e
    case Insert(at, _) => at <= |s|
    case Delete(at) => at < |s|
    case Replace(at, _) => at < |s|
  }

  function Apply(e: Edit, s: string): string
    requires Applies(e, s)
  {
    match e
    case Insert(at, c) => s[..at] + [c] + s[at..]
    case Delete(at) => s[..at] + s[at + 1..]
    case Replace(at, c) => s[..at] + [c] + s[at + 1..]
  }

  /** The edits, made one after the other in any places, turn `s` into `t`. */
  predicate Transforms(script: seq<Edit>, s: string, t: string) {
    if script == [] then s == t
    else Applies(script[0], s) && Transforms(script[1..], Apply(script[0], s), t)
  }

  /** Changing at most one character for at most one other moves the distance by at most one. */
  lemma {:induction false} EditIsCheap(u: string, p: string, q: string, v: string, b: string)
    requires |p| <= 1 && |q| <= 1
    ensures Distance(u + q + v, b) <= Distance(u + p + v, b) + 1
    decreases |v| + |b|
  {
    var x, y := u + p + v, u + q + v;
    if b == [] {
      EmptyIsFar(x);
      EmptyIsFar(y);
    } else if v != [] {
      var b', v' := b[..|b| - 1], v[..|v| - 1];
      assert x[..|x| - 1] == u + p + v' && y[..|y| - 1] == u + q + v';
      EditIsCheap(u, p, q, v, b');
      EditIsCheap(u, p, q, v', b);
      EditIsCheap(u, p, q, v', b');
      SameLast(x, y, b);
    } else {
      EditIsCheap(u, p, q, v, b[..|b| - 1]);
      assert x == u + p && y == u + q;
      EditLast(u, p, q, b);
    }
  }

  /** Two strings with the same last character stay one apart if they are without it. */
  lemma SameLast(x: string, y: string, b: string)
    requires x != [] && y != [] && b != [] && x[|x| - 1] == y[|y| - 1]
    requires Distance(y, b[..|b| - 1]) <= Distance(x, b[..|b| - 1]) + 1
    requires Distance(y[..|y| - 1], b) <= Distance(x[..|x| - 1], b) + 1
    requires Distance(y[..|y| - 1], b[..|b| - 1]) <= Distance(x[..|x| - 1], b[..|b| - 1]) + 1
    ensures Distance(y, b) <= Distance(x, b) + 1
  {
    DistanceOfLasts(x, b);
    DistanceOfLasts(y, b);
  }

  /** The recursion of the distance, by the last letters. */
  lemma DistanceOfLasts(x: string, b: string)
    requires x != [] && b != []
    ensures var x', b' := x[..|x| - 1], b[..|b| - 1];
            Distance(x, b) == Min(Min(Distance(x, b') + 1, Distance(x', b) + 1),
                                  Distance(x', b') + if x[|x| - 1] == b[|b| - 1] then 0 else 1)
  {}

  lemma EditLast(u: string, p: string, q: string, b: string)
    requires |p| <= 1 && |q| <= 1 && b != []
    requires Distance(u + q, b[..|b| - 1]) <= Distance(u + p, b[..|b| - 1]) + 1
    ensures Distance(u + q, b) <= Distance(u + p, b) + 1
  {
    EditAtEnd(u, q, b);
    if p == [] {
      assert u + p == u;
    } else {
      GrowBoth(u, q, b);
      GrowRight(u + q, b);
      LastCases(u, p[0], b);
      assert p == [p[0]];
    }
  }

  /** Where the distance of two non-empty strings comes from. */
  lemma LastCases(u: string, c: char, b: string)
    requires b != []
    ensures var b', d := b[..|b| - 1], Distance(u + [c], b);
            d == Distance(u + [c], b') + 1 || d == Distance(u, b) + 1 || d >= Distance(u, b')
  {
    assert (u + [c])[..|u|] == u;
  }

  lemma GrowRight(s: string, b: string)
    requires b != []
    ensures Distance(s, b) <= Distance(s, b[..|b| - 1]) + 1
  {}

  lemma EmptyIsFar(s: string)
    ensures Distance(s, []) == |s|
  {}

  /** One more character at the end costs at most one. */
  lemma EditAtEnd(u: string, q: string, b: string)
    requires |q| <= 1
    ensures Distance(u + q, b) <= Distance(u, b) + 1
  {
    if q == [] { assert u + q == u; } else { assert (u + q)[..|u|] == u; }
  }

  /** One more character on the right, and at most one on the left, cost at most one. */
  lemma GrowBoth(u: string, q: string, b: string)
    requires |q| <= 1 && b != []
    ensures Distance(u + q, b) <= Distance(u, b[..|b| - 1]) + 1
  {
    if q == [] { assert u + q == u; } else { assert (u + q)[..|u|] == u; }
  }

  lemma OneEditIsCheap(e: Edit, s: string, b: string)
    requires Applies(e, s)
    ensures Distance(s, b) <= Distance(Apply(e, s), b) + 1
  {
    match e
    case Insert(at, c) =>
      EditIsCheap(s[..at], [c], [], s[at..], b);
      assert s[..at] + [] + s[at..] == s;
    case Delete(at) =>
      EditIsCheap(s[..at], [], [s[at]], s[at + 1..], b);
      assert s[..at] + [s[at]] + s[at + 1..] == s;
      assert s[..at] + [] + s[at + 1..] == Apply(e, s);
    case Replace(at, c) =>
      EditIsCheap(s[..at], [c], [s[at]], s[at + 1..], b);
      assert s[..at] + [s[at]] + s[at + 1..] == s;
  }

  /** No script is shorter than the distance. */
  lemma {:induction false} ScriptsAreLong(script: seq<Edit>, s: string, t: string)
    requires Transforms(script, s, t)
    ensures Distance(s, t) <= |script|
    decreases |script|
  {
    if script == [] {
      DistanceToSelf(s);
    } else {
      OneEditIsCheap(script[0], s, t);
      ScriptsAreLong(script[1..], Apply(script[0], s), t);
    }
  }

  lemma {:induction false} DistanceToSelf(s: string)
    ensures Distance(s, s) == 0
  {
    if s != [] { DistanceToSelf(s[..|s| - 1]); }
  }

  lemma {:induction false} ThenTransforms(first: seq<Edit>, second: seq<Edit>, s: string, t: string, u: string)
    requires Transforms(first, s, t) && Transforms(second, t, u)
    ensures Transforms(first + second, s, u)
    decreases |first|
  {
    if first == [] {
      assert first + second == second;
    } else {
      assert (first + second)[1..] == first[1..] + second;
      ThenTransforms(first[1..], second, Apply(first[0], s), t, u);
    }
  }

  lemma ApplyInFront(e: Edit, s: string, z: string)
    requires Applies(e, s)
    ensures Applies(e, s + z) && Apply(e, s + z) == Apply(e, s) + z
  {
    var at := e.at;
    assert (s + z)[..at] == s[..at] && (s + z)[at..] == s[at..] + z;
    if at < |s| { assert (s + z)[at + 1..] == s[at + 1..] + z; }
  }

  /** A script works the same in front of any suffix. */
  lemma {:induction false} TransformsInFront(script: seq<Edit>, s: string, t: string, z: string)
    requires Transforms(script, s, t)
    ensures Transforms(script, s + z, t + z)
    decreases |script|
  {
    if script != [] {
      var e := script[0];
      ApplyInFront(e, s, z);
      TransformsInFront(script[1..], Apply(e, s), t, z);
    }
  }

  /** A script as short as the distance. */
  function BestScript(a: string, b: string): (script: seq<Edit>)
    ensures |script| == Distance(a, b)
    decreases |a| + |b|
  {
    if a == [] then
      if b == [] then [] else BestScript(a, b[..|b| - 1]) + [Insert(|b| - 1, b[|b| - 1])]
    else if b == [] then [Delete(|a| - 1)] + BestScript(a[..|a| - 1], b)
    else
      var a', b', x, y := a[..|a| - 1], b[..|b| - 1], a[|a| - 1], b[|b| - 1];
      if Distance(a, b) == Distance(a, b') + 1 then BestScript(a, b') + [Insert(|b'|, y)]
      else if Distance(a, b) == Distance(a', b) + 1 then [Delete(|a'|)] + BestScript(a', b)
      else if x == y then BestScript(a', b')
      else [Replace(|a'|, y)] + BestScript(a', b')
  }

  lemma {:induction false} BestScriptTransforms(a: string, b: string)
    ensures Transforms(BestScript(a, b), a, b)
    decreases |a| + |b|
  {
    if a == [] && b == [] {
    } else if b != [] && (a == [] || Distance(a, b) == Distance(a, b[..|b| - 1]) + 1) {
      var b' := b[..|b| - 1];
      BestScriptTransforms(a, b');
      EndWithInsert(BestScript(a, b'), a, b);
    } else if b == [] || Distance(a, b) == Distance(a[..|a| - 1], b) + 1 {
      var a' := a[..|a| - 1];
      BestScriptTransforms(a', b);
      StartWithDelete(BestScript(a', b), a, b);
    } else {
      var a', b' := a[..|a| - 1], b[..|b| - 1];
      BestScriptTransforms(a', b');
      if a[|a| - 1] == b[|b| - 1] {
        TransformsInFront(BestScript(a', b'), a', b', [b[|b| - 1]]);
        LastBack(a);
        LastBack(b);
      } else {
        StartWithReplace(BestScript(a', b'), a, b);
      }
    }
  }

  lemma EndWithInsert(script: seq<Edit>, a: string, b: string)
    requires b != [] && Transforms(script, a, b[..|b| - 1])
    ensures Transforms(script + [Insert(|b| - 1, b[|b| - 1])], a, b)
  {
    var b', e := b[..|b| - 1], Insert(|b| - 1, b[|b| - 1]);
    assert Apply(e, b') == b;
    assert [e][1..] == [];
    ThenTransforms(script, [e], a, b', b);
  }

  lemma StartWithDelete(script: seq<Edit>, a: string, b: string)
    requires a != [] && Transforms(script, a[..|a| - 1], b)
    ensures Transforms([Delete(|a| - 1)] + script, a, b)
  {
    assert Apply(Delete(|a| - 1), a) == a[..|a| - 1];
    FirstThen(Delete(|a| - 1), script, a, a[..|a| - 1], b);
  }

  lemma LastBack(s: string)
    requires s != []
    ensures s[..|s| - 1] + [s[|s| - 1]] == s
  {}

  lemma StartWithReplace(script: seq<Edit>, a: string, b: string)
    requires a != [] && b != [] && Transforms(script, a[..|a| - 1], b[..|b| - 1])
    ensures Transforms([Replace(|a| - 1, b[|b| - 1])] + script, a, b)
  {
    var a', b', y := a[..|a| - 1], b[..|b| - 1], b[|b| - 1];
    var replaced := a' + [y];
    assert replaced[..|a'|] == a' && replaced[|a'|] == y && b' + [y] == b;
    TransformsInFront(script, a', b', [y]);
    assert Apply(Replace(|a| - 1, y), a) == replaced;
    FirstThen(Replace(|a| - 1, y), script, a, replaced, b);
  }

  lemma FirstThen(e: Edit, rest: seq<Edit>, s: string, t: string, u: string)
    requires Applies(e, s) && Apply(e, s) == t && Transforms(rest, t, u)
    ensures Transforms([e] + rest, s, u)
  {
    assert ([e] + rest)[1..] == rest;
  }

  /** The distance is the least number of edits over all scripts. */
  lemma DistanceIsLeast(a: string, b: string)
    ensures exists script :: Transforms(script, a, b) && |script| == Distance(a, b)
    ensures forall script :: Transforms(script, a, b) ==> Distance(a, b) <= |script|
  {
    BestScriptTransforms(a, b);
    forall script | Transforms(script, a, b) ensures Distance(a, b) <= |script| {
      ScriptsAreLong(script, a, b);
    }
  }

  // ---------------------------------------------------------------- a metric

  lemma {:induction false} ZeroIffEqual(a: string, b: string)
    ensures Distance(a, b) == 0 <==> a == b
  {
    DistanceToSelf(a);
    BestScriptTransforms(a, b);
  }

  lemma {:induction false} DistanceSymmetric(a: string, b: string)
    ensures Distance(a, b) == Distance(b, a)
    decreases |a| + |b|
  {
    if a != [] && b != [] {
      DistanceSymmetric(a, b[..|b| - 1]);
      DistanceSymmetric(a[..|a| - 1], b);
      DistanceSymmetric(a[..|a| - 1], b[..|b| - 1]);
    }
  }

  lemma {:induction false} TriangleInequality(a: string, b: string, c: string)
    ensures Distance(a, c) <= Distance(a, b) + Distance(b, c)
  {
    BestScriptTransforms(a, b);
    BestScriptTransforms(b, c);
    ThenTransforms(BestScript(a, b), BestScript(b, c), a, b, c);
    ScriptsAreLong(BestScript(a, b) + BestScript(b, c), a, c);
  }

  // ---------------------------------------------------------------- the suggestion

  /** Three edits at most, and never more than half of a short name. */
  function Threshold(name: string): nat { Min(3, Max(1, |name| / 2)) }

  /** One edit for names of up to three letters, two up to five, three beyond. */
  lemma ThresholdTable(name: string)
    ensures Threshold(name) == if |name| <= 3 then 1 else if |name| <= 5 then 2 else 3
  {}

  /** `known[i]` is the first at the least distance from `name`, single-letter flags left aside. */
  ghost predicate Closest(name: string, known: seq<string>, i: nat) {
    && i < |known| && |known[i]| != 1
    && forall j | 0 <= j < |known| && |known[j]| != 1 ::
         if j < i then Distance(name, known[i]) < Distance(name, known[j])
         else Distance(name, known[i]) <= Distance(name, known[j])
  }

  method NearestFlag(name: string, known: seq<string>) returns (best: Option<string>)
    ensures best.Some? ==> exists i: nat :: Closest(name, known, i) && best.value == known[i]
                                            && Distance(name, known[i]) <= Threshold(name)
    ensures best.None? <==> forall j | 0 <= j < |known| && |known[j]| != 1 ::
                              Distance(name, known[j]) > Threshold(name)
  {
    best := None;
    var bestDistance: nat := 0;
    ghost var at: nat := 0;
    for k := 0 to |known|
      invariant best.None? ==> forall j | 0 <= j < k :: |known[j]| == 1
      invariant best.Some? ==> at < k && Closest(name, known[..k], at) && best.value == known[at]
                               && bestDistance == Distance(name, known[at])
    {
      var candidate := known[k];
      if |candidate| == 1 {
        continue;
      }
      var distance := ComputeDistance(name, candidate);
      if best.None? || distance < bestDistance {
        bestDistance := distance;
        best := Some(candidate);
        at := k;
      }
    }
    assert known[..|known|] == known;
    if best.None? || bestDistance > Threshold(name) {
      return None;
    }
  }
}
