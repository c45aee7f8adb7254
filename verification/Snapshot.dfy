/**
 Snapshot comparison: bound values become placeholders, then the expected tree and the actual
 one are compared. What the comparison reports, and what the placeholders can hide.
 */
module Snapshot {
  import opened JsonTree
  import opened JsonNormal

  // ---- the structural difference ----

  datatype Step = Key(key: string) | Index(index: nat)
  type Path = seq<Step>

  datatype Mismatch = NotAnObject | UnexpectedKey | NotAnArray | LengthDiffers | ValueDiffers
  datatype Difference = Difference(path: Path, what: Mismatch)

  /** A missing key reads as null. */
  function At(m: map<string, Tree>, k: string): Tree { if k in m then m[k] else Null }

  /** Which mismatch is reported where, following the path downwards. */
  predicate Reported(e: Tree, a: Tree, path: Path, what: Mismatch)
    decreases e
  {
    if e == a then false
    else
      match e
      case Obj(m) =>
        if !a.Obj? then path == [] && what == NotAnObject
        else if path == [] || !path[0].Key? then false
        else
          var k := path[0].key;
          if k in m then Reported(m[k], At(a.fields, k), path[1..], what)
          else k in a.fields && |path| == 1 && what == UnexpectedKey
      case Arr(s) =>
        if !a.Arr? then path == [] && what == NotAnArray
        else if |s| != |a.elems| then path == [] && what == LengthDiffers
        else
          path != [] && path[0].Index? && path[0].index < |s|
          && Reported(s[path[0].index], a.elems[path[0].index], path[1..], what)
      case _ => path == [] && what == ValueDiffers
  }

  /** Equal, except that entries expected to be null may be absent. */
  predicate Matches(e: Tree, a: Tree)
    decreases e
  {
    match (e, a)
    case (Obj(m), Obj(n)) =>
      && n.Keys <= m.Keys
      && forall k :: k in m ==> Matches(m[k], At(n, k))
    case (Arr(s), Arr(r)) => |s| == |r| && forall i :: 0 <= i < |s| && i < |r| ==> Matches(s[i], r[i])
    case _ => e == a
  }

  lemma {:induction false} MatchesItself(t: Tree)
    ensures Matches(t, t)
  {
    match t
    case Obj(m) =>
      forall k | k in m ensures Matches(m[k], At(m, k)) { MatchesItself(m[k]); }
    case Arr(s) =>
      forall i | 0 <= i < |s| ensures Matches(s[i], s[i]) { MatchesItself(s[i]); }
    case _ =>
  }

  /** Trees that match have nothing to report. */
  lemma {:induction false} MatchingReportsNothing(e: Tree, a: Tree, path: Path, what: Mismatch)
    requires Matches(e, a)
    ensures !Reported(e, a, path, what)
    decreases e
  {
    match e
    case Obj(m) =>
      if e != a && path != [] && path[0].Key? && path[0].key in m {
        MatchingReportsNothing(m[path[0].key], At(a.fields, path[0].key), path[1..], what);
      }
    case Arr(s) =>
      if e != a && path != [] && path[0].Index? && path[0].index < |s| {
        MatchingReportsNothing(s[path[0].index], a.elems[path[0].index], path[1..], what);
      }
    case _ =>
  }

  /** Trees that do not match have something to report. */
  lemma {:induction false} MismatchIsReported(e: Tree, a: Tree) returns (path: Path, what: Mismatch)
    requires !Matches(e, a)
    ensures Reported(e, a, path, what)
    decreases e
  {
    if e == a {
      MatchesItself(e);
    }
    path, what := [], ValueDiffers;
    match e
    case Obj(m) =>
      if !a.Obj? {
        what := NotAnObject;
      } else if k :| k in a.fields && k !in m {
        path, what := [Key(k)], UnexpectedKey;
      } else {
        var k :| k in m && !Matches(m[k], At(a.fields, k));
        path, what := MismatchIsReported(m[k], At(a.fields, k));
        path := [Key(k)] + path;
      }
    case Arr(s) =>
      if !a.Arr? {
        what := NotAnArray;
      } else if |s| != |a.elems| {
        what := LengthDiffers;
      } else {
        var i :| 0 <= i < |s| && !Matches(s[i], a.elems[i]);
        path, what := MismatchIsReported(s[i], a.elems[i]);
        path := [Index(i)] + path;
      }
    case _ =>
  }

  /** Where no entry is expected to be null, matching is equality. */
  lemma {:induction false} MatchingIsEquality(e: Tree, a: Tree)
    requires NoNullEntries(e)
    ensures Matches(e, a) <==> e == a
    decreases e
  {
    MatchesItself(e);
    if Matches(e, a) {
      match e
      case Obj(m) =>
        forall k | k in m ensures k in a.fields && m[k] == a.fields[k] {
          MatchingIsEquality(m[k], At(a.fields, k));
        }
        assert m == a.fields;
      case Arr(s) =>
        forall i | 0 <= i < |s| ensures s[i] == a.elems[i] {
          MatchingIsEquality(s[i], a.elems[i]);
        }
        assert s == a.elems;
      case _ =>
    }
  }

  /** Against an actual tree without null entries, expected null entries are as good as left out. */
  lemma {:induction false} MatchingIsEqualityAfterStripping(e: Tree, a: Tree)
    requires NoNullEntries(a)
    ensures Matches(e, a) <==> StripNulls(e) == a
    decreases e, 1
  {
    StripKeeps(e);
    match (e, a)
    case (Obj(m), Obj(n)) => StrippedObjectsMatch(m, n);
    case (Arr(s), Arr(r)) =>
      var u := StripNulls(e).elems;
      if |s| == |r| {
        forall i | 0 <= i < |s| ensures Matches(s[i], r[i]) <==> u[i] == r[i] {
          MatchingIsEqualityAfterStripping(s[i], r[i]);
        }
        hide StripNulls;
        assert u == r <==> forall i :: 0 <= i < |s| ==> u[i] == r[i];
      }
    case _ =>
  }

  lemma {:induction false} StrippedObjectsMatch(m: map<string, Tree>, n: map<string, Tree>)
    requires NoNullEntries(Obj(n))
    ensures Matches(Obj(m), Obj(n)) <==> StripNulls(Obj(m)) == Obj(n)
    decreases Obj(m), 0
  {
    var u := StripNulls(Obj(m)).fields;
    assert u.Keys <= m.Keys;
    forall k | k in m ensures Matches(m[k], At(n, k)) <==> SameEntry(u, n, k) {
      MatchingIsEqualityAfterStripping(m[k], At(n, k));
      StripKeeps(m[k]);
    }
    MatchesEntries(m, n);
    EqualByEntries(m.Keys, u, n);
    hide StripNulls, NoNullEntries, Matches, SameEntry;
  }

  predicate SameEntry(u: map<string, Tree>, n: map<string, Tree>, k: string) {
    if k in n then k in u && u[k] == n[k] else k !in u
  }

  lemma EqualByEntries(keys: set<string>, u: map<string, Tree>, n: map<string, Tree>)
    requires u.Keys <= keys
    ensures u == n <==> n.Keys <= keys && forall k :: k in keys ==> SameEntry(u, n, k)
  {
    if n.Keys <= keys && forall k :: k in keys ==> SameEntry(u, n, k) {
      assert forall k :: k in keys ==> (k in u <==> k in n) && (k in u ==> u[k] == n[k]);
      assert u == n;
    }
  }

  lemma MatchesEntries(m: map<string, Tree>, n: map<string, Tree>)
    ensures Matches(Obj(m), Obj(n)) <==> n.Keys <= m.Keys && forall k :: k in m ==> Matches(m[k], At(n, k))
  {
  }

  /** A difference reported at or below `path`. */
  ghost predicate ReportedBelow(e: Tree, a: Tree, path: Path, d: Difference) {
    path <= d.path && Reported(e, a, d.path[|path|..], d.what)
  }

  lemma BelowStep(path: Path, s: Step, d: Difference)
    ensures path + [s] <= d.path <==> path < d.path && d.path[|path|] == s
    ensures path + [s] <= d.path ==> d.path[|path|..][1..] == d.path[|path + [s]|..] && d.path[|path|..][0] == s
  {
    if path < d.path && d.path[|path|] == s {
      assert (path + [s])[..] == d.path[..|path| + 1];
    }
  }

  lemma OneReport(e: Tree, a: Tree, path: Path, what: Mismatch)
    requires e != a && forall p, w :: Reported(e, a, p, w) <==> p == [] && w == what
    ensures forall d :: d in [Difference(path, what)] <==> ReportedBelow(e, a, path, d)
  {
    forall d ensures d in [Difference(path, what)] <==> ReportedBelow(e, a, path, d) {
      if path <= d.path && d.path[|path|..] == [] { assert d.path == path; }
    }
  }

  /** What an object reports under one key. */
  ghost predicate KeyReports(m: map<string, Tree>, n: map<string, Tree>, path: Path, k: string, d: Difference) {
    path < d.path && d.path[|path|] == Key(k)
    && if k in m then Reported(m[k], At(n, k), d.path[|path| + 1..], d.what)
       else k in n && d == Difference(path + [Key(k)], UnexpectedKey)
  }

  lemma ObjectReports(m: map<string, Tree>, n: map<string, Tree>, path: Path, d: Difference)
    requires m != n
    ensures ReportedBelow(Obj(m), Obj(n), path, d) <==> exists k :: (k in m || k in n) && KeyReports(m, n, path, k, d)
  {
    if path < d.path && d.path[|path|].Key? {
      var k := d.path[|path|].key;
      BelowStep(path, Key(k), d);
      assert ReportedBelow(Obj(m), Obj(n), path, d) <==> (k in m || k in n) && KeyReports(m, n, path, k, d);
    }
  }

  ghost predicate ElementReports(s: seq<Tree>, r: seq<Tree>, path: Path, i: nat, d: Difference)
    requires |s| == |r|
  {
    i < |s| && path < d.path && d.path[|path|] == Index(i) && Reported(s[i], r[i], d.path[|path| + 1..], d.what)
  }

  lemma ArrayReports(s: seq<Tree>, r: seq<Tree>, path: Path, d: Difference)
    requires s != r && |s| == |r|
    ensures ReportedBelow(Arr(s), Arr(r), path, d) <==> exists i: nat :: i < |s| && ElementReports(s, r, path, i, d)
  {
    if path < d.path && d.path[|path|].Index? {
      var i := d.path[|path|].index;
      BelowStep(path, Index(i), d);
      assert ReportedBelow(Arr(s), Arr(r), path, d) <==> i < |s| && ElementReports(s, r, path, i, d);
    }
  }

  /** Collects the differences, whatever order a map's keys come in. */
  method Diff(path: Path, e: Tree, a: Tree) returns (out: seq<Difference>)
    ensures forall d :: d in out <==> ReportedBelow(e, a, path, d)
    decreases e, 1
  {
    if e == a {
      return [];
    }
    match e
    case Obj(m) =>
      if !a.Obj? {
        OneReport(e, a, path, NotAnObject);
        return [Difference(path, NotAnObject)];
      }
      out := DiffObjects(path, m, a.fields);
    case Arr(s) =>
      if !a.Arr? {
        OneReport(e, a, path, NotAnArray);
        return [Difference(path, NotAnArray)];
      }
      if |s| != |a.elems| {
        OneReport(e, a, path, LengthDiffers);
        return [Difference(path, LengthDiffers)];
      }
      out := DiffArrays(path, s, a.elems);
    case _ =>
      OneReport(e, a, path, ValueDiffers);
      return [Difference(path, ValueDiffers)];
  }

  method DiffObjects(path: Path, m: map<string, Tree>, n: map<string, Tree>) returns (out: seq<Difference>)
    requires m != n
    ensures forall d :: d in out <==> ReportedBelow(Obj(m), Obj(n), path, d)
    decreases Obj(m), 0
  {
    out := [];
    var left, seen := m.Keys, {};
    while left != {}
      invariant left <= m.Keys && seen == m.Keys - left
      invariant forall d :: d in out <==> exists k :: k in seen && KeyReports(m, n, path, k, d)
      decreases left
    {
      var k :| k in left;
      var more := Diff(path + [Key(k)], m[k], At(n, k));
      forall d ensures d in more <==> KeyReports(m, n, path, k, d) {
        BelowStep(path, Key(k), d);
      }
      left, seen, out := left - {k}, seen + {k}, out + more;
    }
    left := n.Keys;
    while left != {}
      invariant left <= n.Keys && seen == m.Keys
      invariant forall d :: d in out <==> exists k :: (k in m || (k in n && k !in left)) && KeyReports(m, n, path, k, d)
      decreases left
    {
      var k :| k in left;
      left := left - {k};
      if k in seen {
        continue;
      }
      forall d ensures d == Difference(path + [Key(k)], UnexpectedKey) <==> KeyReports(m, n, path, k, d) {
        BelowStep(path, Key(k), d);
      }
      out := out + [Difference(path + [Key(k)], UnexpectedKey)];
    }
    forall d ensures d in out <==> ReportedBelow(Obj(m), Obj(n), path, d) {
      ObjectReports(m, n, path, d);
    }
  }

  method DiffArrays(path: Path, s: seq<Tree>, r: seq<Tree>) returns (out: seq<Difference>)
    requires s != r && |s| == |r|
    ensures forall d :: d in out <==> ReportedBelow(Arr(s), Arr(r), path, d)
    decreases Arr(s), 0
  {
    out := [];
    for i := 0 to |s|
      invariant forall d :: d in out <==> exists j: nat :: j < i && ElementReports(s, r, path, j, d)
    {
      var more := Diff(path + [Index(i)], s[i], r[i]);
      forall d ensures d in more <==> ElementReports(s, r, path, i, d) {
        BelowStep(path, Index(i), d);
      }
      out := out + more;
    }
    forall d ensures d in out <==> ReportedBelow(Arr(s), Arr(r), path, d) {
      ArrayReports(s, r, path, d);
    }
  }

  /** Nothing is reported exactly when the trees match. */
  lemma NothingReportedExactlyWhenMatching(e: Tree, a: Tree)
    ensures Matches(e, a) <==> forall d :: !ReportedBelow(e, a, [], d)
  {
    if Matches(e, a) {
      forall d ensures !ReportedBelow(e, a, [], d) {
        MatchingReportsNothing(e, a, d.path[0..], d.what);
      }
    } else {
      var path, what := MismatchIsReported(e, a);
      assert path[0..] == path;
      assert ReportedBelow(e, a, [], Difference(path, what));
    }
  }

  // ---- templating ----

  datatype Replacement = Replacement(from: string, to: string)

  /** The first replacement for exactly this text. */
  function Substitute(s: string, reps: seq<Replacement>): string {
    if reps == [] then s
    else if reps[0].from != "" && s == reps[0].from then reps[0].to
    else Substitute(s, reps[1..])
  }

  function Walk(t: Tree, reps: seq<Replacement>): Tree {
    match t
    case Obj(m) => Obj(map k | k in m :: Walk(m[k], reps))
    case Arr(s) => Arr(seq(|s|, i requires 0 <= i < |s| => Walk(s[i], reps)))
    case Str(s) => Str(Substitute(s, reps))
    case _ => t
  }

  type Bindings = map<string, string>

  ghost predicate Sound(reps: seq<Replacement>, b: Bindings) {
    forall i :: 0 <= i < |reps| ==> reps[i].to in b && b[reps[i].to] == reps[i].from
  }

  ghost predicate Once(reps: seq<Replacement>) {
    forall i, j :: 0 <= i < |reps| && 0 <= j < |reps| && i != j ==> reps[i].to != reps[j].to
  }

  ghost predicate Listed(p: string, reps: seq<Replacement>) { exists i :: 0 <= i < |reps| && reps[i].to == p }

  /** The replacements of some bindings, each once, in some order. */
  ghost predicate Lists(reps: seq<Replacement>, b: Bindings) {
    Sound(reps, b) && Once(reps) && forall p :: p in b ==> Listed(p, reps)
  }

  ghost predicate LongestFirst(reps: seq<Replacement>) {
    forall i, j :: 0 <= i < j < |reps| ==> |reps[i].from| >= |reps[j].from|
  }

  ghost predicate DistinctValues(b: Bindings) {
    forall p, q :: p in b && q in b && b[p] == b[q] && b[p] != "" ==> p == q
  }

  /** What a text becomes: the name of a placeholder bound to it, if there is one. */
  lemma {:induction false} SubstituteFinds(s: string, reps: seq<Replacement>)
    ensures Substitute(s, reps) == s ||
      exists i :: 0 <= i < |reps| && reps[i].from == s && reps[i].to == Substitute(s, reps)
    ensures (exists i :: 0 <= i < |reps| && reps[i].from == s) && s != ""
      ==> exists i :: 0 <= i < |reps| && reps[i].from == s && reps[i].to == Substitute(s, reps)
    ensures s == "" || (forall i :: 0 <= i < |reps| ==> reps[i].from != s) ==> Substitute(s, reps) == s
  {
    if reps != [] {
      var rest := reps[1..];
      SubstituteFinds(s, rest);
      forall i | 0 <= i < |rest| ensures rest[i] == reps[i + 1] {}
      if reps[0].from != s || s == "" {
        if i :| 0 <= i < |rest| && rest[i].from == s && rest[i].to == Substitute(s, rest) {
          assert reps[i + 1].from == s;
        }
        if i :| 0 <= i < |reps| && reps[i].from == s && s != "" {
          assert rest[i - 1].from == s;
        }
      }
    }
  }

  /** With distinct values, the order of the replacements does not matter. */
  lemma {:induction false} OrderDoesNotMatter(t: Tree, b: Bindings, reps: seq<Replacement>, other: seq<Replacement>)
    requires DistinctValues(b) && Lists(reps, b) && Lists(other, b)
    ensures Walk(t, reps) == Walk(t, other)
  {
    match t
    case Obj(m) =>
      forall k | k in m ensures Walk(m[k], reps) == Walk(m[k], other) { OrderDoesNotMatter(m[k], b, reps, other); }
    case Arr(s) =>
      forall i | 0 <= i < |s| ensures Walk(s[i], reps) == Walk(s[i], other) {
        OrderDoesNotMatter(s[i], b, reps, other);
      }
    case Str(s) => SameSubstitution(s, b, reps, other);
    case _ =>
  }

  /** What a text becomes under some listing of the bindings. */
  lemma SubstituteByBindings(s: string, b: Bindings, reps: seq<Replacement>)
    requires Lists(reps, b)
    ensures var r := Substitute(s, reps);
      if s != "" && exists p :: p in b && b[p] == s then r in b && b[r] == s else r == s
  {
    SubstituteFinds(s, reps);
    if p :| p in b && b[p] == s && s != "" {
      assert Listed(p, reps);
      var i :| 0 <= i < |reps| && reps[i].to == p;
      assert reps[i].from == s;
    }
  }

  lemma SameSubstitution(s: string, b: Bindings, reps: seq<Replacement>, other: seq<Replacement>)
    requires DistinctValues(b) && Lists(reps, b) && Lists(other, b)
    ensures Substitute(s, reps) == Substitute(s, other)
  {
    hide Substitute, Lists;
    SubstituteByBindings(s, b, reps);
    SubstituteByBindings(s, b, other);
  }

  lemma {:induction false} FirstListedWins(s: string, reps: seq<Replacement>, i: nat)
    requires i < |reps| && reps[i].from == s != "" && forall j :: 0 <= j < i ==> reps[j].from != s
    ensures Substitute(s, reps) == reps[i].to
  {
    if i > 0 {
      FirstListedWins(s, reps[1..], i - 1);
    }
  }

  lemma {:induction false} FirstListing(s: string, reps: seq<Replacement>) returns (i: nat)
    requires exists j :: 0 <= j < |reps| && reps[j].from == s
    ensures i < |reps| && reps[i].from == s && forall j :: 0 <= j < i ==> reps[j].from != s
  {
    i := 0;
    while reps[i].from != s
      invariant i < |reps| && forall j :: 0 <= j < i ==> reps[j].from != s
      decreases |reps| - i
    {
      i := i + 1;
    }
  }

  /** Exchanging two replacements of one value keeps the listing and its order by length. */
  lemma SwapKeepsListing(b: Bindings, reps: seq<Replacement>, i: nat, j: nat)
    requires Lists(reps, b) && i < j < |reps| && reps[i].from == reps[j].from
    ensures var swapped := reps[i := reps[j]][j := reps[i]];
      Lists(swapped, b) && (LongestFirst(reps) ==> LongestFirst(swapped))
  {
    var swapped := reps[i := reps[j]][j := reps[i]];
    SwapKeepsLengths(reps, i, j);
    assert Sound(swapped, b) && Once(swapped);
    hide LongestFirst, Sound, Once, Listed;
    forall p | p in b ensures Listed(p, swapped) {
      SwapKeepsListed(reps, i, j, p);
    }
  }

  lemma SwapKeepsLengths(reps: seq<Replacement>, i: nat, j: nat)
    requires i < j < |reps| && reps[i].from == reps[j].from
    ensures LongestFirst(reps) ==> LongestFirst(reps[i := reps[j]][j := reps[i]])
  {
    var swapped := reps[i := reps[j]][j := reps[i]];
    assert forall k :: 0 <= k < |reps| ==> swapped[k].from == reps[k].from;
  }

  lemma SwapKeepsListed(reps: seq<Replacement>, i: nat, j: nat, p: string)
    requires i < j < |reps| && Listed(p, reps)
    ensures Listed(p, reps[i := reps[j]][j := reps[i]])
  {
    var k :| 0 <= k < |reps| && reps[k].to == p;
    var swapped := reps[i := reps[j]][j := reps[i]];
    assert swapped[if k == i then j else if k == j then i else k].to == p;
  }

  /**
   Without distinct values it does. Two names for one value have equal lengths, so sorting by
   length leaves open which of them comes first.
   */
  lemma EqualValuesLeaveItOpen(b: Bindings, reps: seq<Replacement>, p: string, q: string)
    requires Lists(reps, b) && LongestFirst(reps) && p in b && q in b && p != q && b[p] == b[q] != ""
    ensures exists other :: Lists(other, b) && LongestFirst(other) && Walk(Str(b[p]), other) != Walk(Str(b[p]), reps)
  {
    var s := b[p];
    var i, j := TwoListings(b, reps, p, q);
    SwapKeepsListing(b, reps, i, j);
    var swapped := reps[i := reps[j]][j := reps[i]];
    hide Lists, LongestFirst, Substitute;
    FirstListedWins(s, reps, i);
    FirstListedWins(s, swapped, i);
    SubstitutedText(s, reps);
    SubstitutedText(s, swapped);
  }

  lemma SubstitutedText(s: string, reps: seq<Replacement>)
    ensures Walk(Str(s), reps) == Str(Substitute(s, reps))
  {
  }

  lemma TwoListings(b: Bindings, reps: seq<Replacement>, p: string, q: string) returns (i: nat, j: nat)
    requires Lists(reps, b) && p in b && q in b && p != q && b[p] == b[q]
    ensures i < j < |reps| && reps[i].from == reps[j].from == b[p] && reps[i].to != reps[j].to
    ensures forall k :: 0 <= k < i ==> reps[k].from != b[p]
  {
    assert Listed(p, reps) && Listed(q, reps);
    var ip :| 0 <= ip < |reps| && reps[ip].to == p;
    var iq :| 0 <= iq < |reps| && reps[iq].to == q;
    i := FirstListing(b[p], reps);
    j := if i == ip then iq else ip;
  }

  /** Whether some placeholder is bound to this text; nothing is ever bound to the empty one. */
  ghost predicate Bound(s: string, b: Bindings) { s != "" && exists p :: p in b && b[p] == s }

  /** The same tree, with every bound text, at any depth, replaced by a placeholder bound to it, and no other. */
  ghost predicate Templated(t: Tree, u: Tree, b: Bindings)
    decreases t
  {
    match (t, u)
    case (Obj(m), Obj(n)) => m.Keys == n.Keys && forall k :: k in m && k in n ==> Templated(m[k], n[k], b)
    case (Arr(s), Arr(r)) => |s| == |r| && forall i :: 0 <= i < |s| && i < |r| ==> Templated(s[i], r[i], b)
    case (Str(s), Str(r)) => if Bound(s, b) then r in b && b[r] == s else r == s
    case _ => t == u
  }

  /** The walk templates at every depth. */
  lemma {:induction false} WalkTemplates(t: Tree, b: Bindings, reps: seq<Replacement>)
    requires Lists(reps, b)
    ensures Templated(t, Walk(t, reps), b)
  {
    match t
    case Obj(m) =>
      forall k | k in m ensures Templated(m[k], Walk(m[k], reps), b) { WalkTemplates(m[k], b, reps); }
    case Arr(s) =>
      forall i | 0 <= i < |s| ensures Templated(s[i], Walk(s[i], reps), b) { WalkTemplates(s[i], b, reps); }
    case Str(s) => SubstituteByBindings(s, b, reps);
    case _ =>
  }

  /** With distinct values only one tree is the templated one, so this fixes what the walk returns. */
  lemma {:induction false} TemplatedOnce(t: Tree, u: Tree, v: Tree, b: Bindings)
    requires DistinctValues(b) && Templated(t, u, b) && Templated(t, v, b)
    ensures u == v
    decreases t
  {
    match t
    case Obj(m) =>
      forall k | k in m ensures u.fields[k] == v.fields[k] {
        TemplatedOnce(m[k], u.fields[k], v.fields[k], b);
      }
      assert u.fields == v.fields;
    case Arr(s) =>
      forall i | 0 <= i < |s| ensures u.elems[i] == v.elems[i] {
        TemplatedOnce(s[i], u.elems[i], v.elems[i], b);
      }
      assert u.elems == v.elems;
    case _ =>
  }

  ghost predicate NothingBound(t: Tree, b: Bindings) {
    match t
    case Obj(m) => forall k :: k in m ==> NothingBound(m[k], b)
    case Arr(s) => forall i :: 0 <= i < |s| ==> NothingBound(s[i], b)
    case Str(s) => !Bound(s, b)
    case _ => true
  }

  /** Unless a placeholder's name is itself a bound value, no bound value remains at any depth. */
  lemma {:induction false} NoBoundValueRemains(t: Tree, b: Bindings, reps: seq<Replacement>)
    requires Lists(reps, b) && forall p :: p in b ==> !Bound(p, b)
    ensures NothingBound(Walk(t, reps), b)
  {
    match t
    case Obj(m) =>
      forall k | k in m ensures NothingBound(Walk(m[k], reps), b) { NoBoundValueRemains(m[k], b, reps); }
    case Arr(s) =>
      forall i | 0 <= i < |s| ensures NothingBound(Walk(s[i], reps), b) { NoBoundValueRemains(s[i], b, reps); }
    case Str(s) => SubstituteByBindings(s, b, reps);
    case _ =>
  }

  /** No text of the tree is the name of a bound placeholder. */
  predicate NoPlaceholders(t: Tree, b: Bindings) {
    match t
    case Obj(m) => forall k :: k in m ==> NoPlaceholders(m[k], b)
    case Arr(s) => forall i :: 0 <= i < |s| ==> NoPlaceholders(s[i], b)
    case Str(s) => s !in b
    case _ => true
  }

  /** Templating hides no difference between trees without placeholder names. */
  lemma {:induction false} TemplatingHidesNothing(t: Tree, u: Tree, b: Bindings, reps: seq<Replacement>)
    requires Lists(reps, b) && NoPlaceholders(t, b) && NoPlaceholders(u, b)
    ensures Walk(t, reps) == Walk(u, reps) <==> t == u
  {
    if Walk(t, reps) == Walk(u, reps) {
      match (t, u)
      case (Obj(m), Obj(n)) =>
        var a, c := Walk(t, reps).fields, Walk(u, reps).fields;
        assert a.Keys == m.Keys && c.Keys == n.Keys;
        forall k | k in m ensures m[k] == n[k] {
          assert a[k] == c[k];
          TemplatingHidesNothing(m[k], n[k], b, reps);
        }
      case (Arr(s), Arr(r)) =>
        var a, c := Walk(t, reps).elems, Walk(u, reps).elems;
        assert |a| == |s| && |c| == |r|;
        forall i | 0 <= i < |s| ensures s[i] == r[i] {
          assert a[i] == c[i];
          TemplatingHidesNothing(s[i], r[i], b, reps);
        }
        assert s == r;
      case (Str(s), Str(r)) =>
        SubstituteByBindings(s, b, reps);
        SubstituteByBindings(r, b, reps);
      case _ =>
    }
  }

  /** A placeholder's own name passes for the value bound to it. */
  lemma PlaceholderNamePasses(b: Bindings, reps: seq<Replacement>, p: string)
    requires Lists(reps, b) && DistinctValues(b) && p in b && b[p] != ""
    requires forall q :: q in b ==> b[q] != p
    ensures Walk(Str(p), reps) == Walk(Str(b[p]), reps) && Str(p) != Str(b[p])
  {
    SubstituteByBindings(p, b, reps);
    SubstituteByBindings(b[p], b, reps);
  }

  // ---- a snapshot ----

  /** The loop that looks a text up in the replacements. */
  method FindSubstitute(s: string, reps: seq<Replacement>) returns (r: string)
    ensures r == Substitute(s, reps)
  {
    for i := 0 to |reps|
      invariant Substitute(s, reps) == Substitute(s, reps[i..])
    {
      assert reps[i..][0] == reps[i] && reps[i..][1..] == reps[i + 1..];
      if reps[i].from == "" {
        continue;
      }
      if s == reps[i].from {
        return reps[i].to;
      }
    }
    assert reps[|reps|..] == [];
    return s;
  }

  /** The rewritten copy, built afresh. */
  method Template(t: Tree, reps: seq<Replacement>) returns (out: Tree)
    ensures out == Walk(t, reps)
  {
    match t
    case Obj(m) =>
      var fields: map<string, Tree>, left := map[], m.Keys;
      while left != {}
        invariant left <= m.Keys && fields.Keys == m.Keys - left
        invariant forall k :: k in fields ==> fields[k] == Walk(m[k], reps)
        decreases left
      {
        var k :| k in left;
        var val := Template(m[k], reps);
        fields, left := fields[k := val], left - {k};
      }
      assert fields == Walk(t, reps).fields;
      return Obj(fields);
    case Arr(s) =>
      var elems := [];
      for i := 0 to |s|
        invariant |elems| == i && forall j :: 0 <= j < i ==> elems[j] == Walk(s[j], reps)
      {
        var val := Template(s[i], reps);
        elems := elems + [val];
      }
      assert elems == Walk(t, reps).elems;
      return Arr(elems);
    case Str(s) =>
      var r := FindSubstitute(s, reps);
      return Str(r);
    case _ => return t;
  }

  class Snapshot {
    var expected: Tree
    var bindings: Bindings

    /** Binding never keeps an empty value. */
    ghost predicate Valid()
      reads this
    {
      forall p :: p in bindings ==> bindings[p] != ""
    }

    constructor (expected: Tree)
      ensures Valid() && this.expected == expected && bindings == map[]
    {
      this.expected := expected;
      bindings := map[];
    }

    /** Binds `$name` to a value; an empty value is ignored. */
    method Bind(name: string, value: string)
      requires Valid()
      modifies this`bindings
      ensures Valid()
      ensures bindings == if value == "" then old(bindings) else old(bindings)["$" + name := value]
    {
      if value == "" {
        return;
      }
      bindings := bindings["$" + name := value];
    }

    /** The bindings as replacements, longest value first; equal lengths in no particular order. */
    method SortedReplacements() returns (out: seq<Replacement>)
      ensures Lists(out, bindings) && LongestFirst(out)
    {
      out := [];
      var left := bindings.Keys;
      while left != {}
        invariant left <= bindings.Keys && LongestFirst(out)
        invariant Lists(out, map p | p in bindings && p !in left :: bindings[p])
        decreases left
      {
        var p :| p in left;
        ghost var b := map q | q in bindings && q !in left :: bindings[q];
        ghost var was := out;
        var i := 0;
        while i < |out| && |out[i].from| > |bindings[p]|
          invariant 0 <= i <= |out| && forall j :: 0 <= j < i ==> |out[j].from| > |bindings[p]|
        {
          i := i + 1;
        }
        InsertionLists(b, out, i, Replacement(bindings[p], p));
        out := out[..i] + [Replacement(bindings[p], p)] + out[i..];
        left := left - {p};
        assert (map q | q in bindings && q !in left :: bindings[q]) == b[p := bindings[p]];
      }
      assert (map p | p in bindings && p !in left :: bindings[p]) == bindings;
    }

    /**
     Compares an actual tree with the snapshot: it passes exactly when a snapshot exists and
     the templated tree matches it. With distinct values, any listing of the bindings may be
     taken for the one that was used.
     */
    method Compare(actual: Tree) returns (ok: bool, diffs: seq<Difference>, ghost reps: seq<Replacement>)
      ensures Lists(reps, bindings) && LongestFirst(reps)
      ensures ok <==> expected != Null && Matches(expected, Walk(actual, reps))
      ensures ok ==> diffs == []
      ensures !ok && expected != Null ==>
        diffs != [] && forall d :: d in diffs <==> ReportedBelow(expected, Walk(actual, reps), [], d)
    {
      var listed := this.SortedReplacements();
      reps := listed;
      var normalized := Template(actual, listed);
      if expected == Null {
        return false, [], reps;
      }
      diffs := Diff([], expected, normalized);
      NothingReportedExactlyWhenMatching(expected, normalized);
      if diffs == [] {
        assert forall d :: d !in diffs;
        return true, diffs, reps;
      }
      assert diffs[0] in diffs;
      return false, diffs, reps;
    }
  }

  lemma InsertionLists(b: Bindings, reps: seq<Replacement>, i: nat, r: Replacement)
    requires Lists(reps, b) && LongestFirst(reps) && i <= |reps| && r.to !in b
    requires forall j :: 0 <= j < i ==> |reps[j].from| > |r.from|
    requires i < |reps| ==> |reps[i].from| <= |r.from|
    ensures Lists(reps[..i] + [r] + reps[i..], b[r.to := r.from]) && LongestFirst(reps[..i] + [r] + reps[i..])
  {
    var out := reps[..i] + [r] + reps[i..];
    InsertionIsSorted(reps, i, r);
    InsertionIsSound(b, reps, i, r);
    hide LongestFirst, Sound, Once, Listed;
    forall p | p in b[r.to := r.from] ensures Listed(p, out) {
      InsertionKeepsListed(reps, i, r, p);
    }
  }

  lemma InsertedAt(reps: seq<Replacement>, i: nat, r: Replacement)
    requires i <= |reps|
    ensures var out := reps[..i] + [r] + reps[i..];
      |out| == |reps| + 1
      && forall k :: 0 <= k < |out| ==> out[k] == if k < i then reps[k] else if k == i then r else reps[k - 1]
  {
  }

  lemma InsertionIsSorted(reps: seq<Replacement>, i: nat, r: Replacement)
    requires LongestFirst(reps) && i <= |reps| && forall j :: 0 <= j < i ==> |reps[j].from| > |r.from|
    requires i < |reps| ==> |reps[i].from| <= |r.from|
    ensures LongestFirst(reps[..i] + [r] + reps[i..])
  {
    InsertedAt(reps, i, r);
  }

  lemma InsertionIsSound(b: Bindings, reps: seq<Replacement>, i: nat, r: Replacement)
    requires Sound(reps, b) && Once(reps) && i <= |reps| && r.to !in b
    ensures Sound(reps[..i] + [r] + reps[i..], b[r.to := r.from]) && Once(reps[..i] + [r] + reps[i..])
  {
    InsertedAt(reps, i, r);
    assert forall k :: 0 <= k < |reps| ==> reps[k].to != r.to;
  }

  lemma InsertionKeepsListed(reps: seq<Replacement>, i: nat, r: Replacement, p: string)
    requires i <= |reps| && (p == r.to || Listed(p, reps))
    ensures Listed(p, reps[..i] + [r] + reps[i..])
  {
    var out := reps[..i] + [r] + reps[i..];
    InsertedAt(reps, i, r);
    if p == r.to {
      assert out[i].to == p;
    } else {
      var k :| 0 <= k < |reps| && reps[k].to == p;
      assert out[if k < i then k else k + 1].to == p;
    }
  }

  /** A comparison that passes with one order of the bindings passes with every order. */
  lemma VerdictIsOrderIndependent(expected: Tree, actual: Tree, b: Bindings, reps: seq<Replacement>,
      other: seq<Replacement>)
    requires DistinctValues(b) && Lists(reps, b) && Lists(other, b)
    ensures Matches(expected, Walk(actual, reps)) <==> Matches(expected, Walk(actual, other))
  {
    OrderDoesNotMatter(actual, b, reps, other);
  }
}
