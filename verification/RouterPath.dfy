/**
 Paths as the router sees them: the normalised text that keys the hash of static routes, and the list of
 segments that the trie is walked with.
 */
module RouterPath {

  // ---- Segments ----

  /** The length of the run of characters other than '/' at the start of `p`. */
  function RunLength(p: string): (n: nat)
    ensures n <= |p|
    ensures forall i | 0 <= i < n :: p[i] != '/'
    ensures n < |p| ==> p[n] == '/'
  {
    if p == "" || p[0] == '/' then 0 else 1 + RunLength(p[1..])
  }

  /** The maximal runs of characters other than '/'. */
  function Segments(p: string): seq<string>
    decreases |p|
  {
    if p == "" then []
    else if p[0] == '/' then Segments(p[1..])
    else [p[..RunLength(p)]] + Segments(p[RunLength(p)..])
  }

  predicate IsSegment(s: string) {
    s != "" && forall i | 0 <= i < |s| :: s[i] != '/'
  }

  function Join(segs: seq<string>): string {
    if segs == [] then ""
    else if |segs| == 1 then segs[0]
    else segs[0] + "/" + Join(segs[1..])
  }

  predicate Absolute(p: string) {
    p != "" && p[0] == '/'
  }

  // ---- Normalisation ----

  /** `p` with every run of '/' cut to one; `lastSlash` says that a '/' came just before. */
  function Collapse(p: string, lastSlash: bool): string
    decreases |p|
  {
    if p == "" then ""
    else if p[0] == '/' then (if lastSlash then "" else "/") + Collapse(p[1..], true)
    else [p[0]] + Collapse(p[1..], false)
  }

  function DropLastSlash(out: string): string {
    if |out| > 1 && out[|out| - 1] == '/' then out[..|out| - 1] else out
  }

  function Norm(p: string): string {
    DropLastSlash(Collapse(p, false))
  }

  method NormalizePath(path: string) returns (out: string)
    ensures out == Norm(path)
  {
    hide Collapse;
    out := "";
    var lastSlash := false;
    for i := 0 to |path|
      invariant Collapse(path, false) == out + Collapse(path[i..], lastSlash)
    {
      var c := path[i];
      CollapseStep(path[i..], lastSlash);
      assert path[i..][1..] == path[i + 1..];
      if c == '/' {
        if !lastSlash {
          out := out + [c];
        }
        lastSlash := true;
      } else {
        out := out + [c];
        lastSlash := false;
      }
    }
    CollapseStep(path[|path|..], lastSlash);
    if |out| > 1 && out[|out| - 1] == '/' {
      out := out[..|out| - 1];
    }
  }

  lemma CollapseStep(p: string, lastSlash: bool)
    ensures p == "" ==> Collapse(p, lastSlash) == ""
    ensures Absolute(p) ==> Collapse(p, lastSlash) == (if lastSlash then "" else "/") + Collapse(p[1..], true)
    ensures p != "" && !Absolute(p) ==> Collapse(p, lastSlash) == [p[0]] + Collapse(p[1..], false)
  {
  }

  method SplitPath(path: string) returns (segs: seq<string>)
    ensures segs == Segments(path)
  {
    hide Segments, RunLength;
    segs := [];
    var i := 0;
    while i < |path|
      invariant 0 <= i <= |path|
      invariant Segments(path) == segs + Segments(path[i..])
      decreases |path| - i
    {
      SegmentsStep(path[i..]);
      if path[i] == '/' {
        assert path[i..][1..] == path[i + 1..];
        i := i + 1;
        continue;
      }
      var start := i;
      ghost var rest := path[start..];
      while i < |path| && path[i] != '/'
        invariant start <= i <= |path|
        invariant forall j | start <= j < i :: path[j] != '/'
      {
        i := i + 1;
      }
      RunIs(rest, i - start);
      assert rest[i - start..] == path[i..];
      assert rest[..i - start] == path[start..i];
      segs := segs + [path[start..i]];
    }
    SegmentsStep(path[i..]);
  }

  lemma SegmentsStep(p: string)
    ensures p == "" ==> Segments(p) == []
    ensures Absolute(p) ==> Segments(p) == Segments(p[1..])
    ensures p != "" && !Absolute(p) ==> Segments(p) == [p[..RunLength(p)]] + Segments(p[RunLength(p)..])
  {
  }

  lemma {:induction false} RunIs(p: string, n: nat)
    requires n <= |p| && (forall i | 0 <= i < n :: p[i] != '/') && (n < |p| ==> p[n] == '/')
    ensures RunLength(p) == n
    decreases n
  {
  }

  // ---- The two views agree ----

  lemma {:induction false} SegmentsAreSegments(p: string)
    ensures forall i | 0 <= i < |Segments(p)| :: IsSegment(Segments(p)[i])
    decreases |p|
  {
    if p != "" {
      if p[0] == '/' {
        SegmentsAreSegments(p[1..]);
      } else {
        SegmentsAreSegments(p[RunLength(p)..]);
      }
    }
  }

  /** A run is copied as it is. */
  lemma {:induction false} CollapseOfRun(p: string, n: nat, lastSlash: bool)
    requires 0 < n <= |p| && forall i | 0 <= i < n :: p[i] != '/'
    ensures Collapse(p, lastSlash) == p[..n] + Collapse(p[n..], false)
    decreases n
  {
    if n == 1 {
      assert p[..1] == [p[0]];
    } else {
      CollapseOfRun(p[1..], n - 1, false);
      assert p[..n] == [p[0]] + p[1..][..n - 1];
      assert p[n..] == p[1..][n - 1..];
    }
  }

  /** What is left after the last segment: a '/' if `p` ends in one and has a segment at all. */
  function Trail(p: string): string {
    if Segments(p) != [] && p[|p| - 1] == '/' then "/" else ""
  }

  lemma JoinCons(a: string, segs: seq<string>)
    ensures Join([a] + segs) == if segs == [] then a else a + "/" + Join(segs)
  {
  }

  /** A first segment and what follows its '/'. */
  lemma SplitAtFirst(p: string, n: nat)
    requires 0 < n < |p| && n == RunLength(p)
    ensures Segments(p) == [p[..n]] + Segments(p[n + 1..])
    ensures Collapse(p, true) == p[..n] + "/" + Collapse(p[n + 1..], true)
    ensures Trail(p) == if Segments(p[n + 1..]) == [] then "/" else Trail(p[n + 1..])
  {
    var r, q := p[n..], p[n + 1..];
    assert r[0] == '/' && r[1..] == q;
    assert Segments(r) == Segments(q);
    CollapseOfRun(p, n, true);
    assert Collapse(r, false) == "/" + Collapse(q, true);
    Regroup(p[..n], "/", Collapse(q, true));
    assert p[|p| - 1] == if q == "" then '/' else q[|q| - 1];
    hide Collapse;
    if Segments(q) == [] {
      NoSegmentsEndInSlash(q);
    }
  }

  lemma Regroup(a: string, b: string, c: string)
    ensures a + (b + c) == a + b + c
  {
  }

  lemma CollapseAtFirst(p: string, n: nat)
    requires 0 < n < |p| && n == RunLength(p)
    requires Collapse(p[n + 1..], true) == Join(Segments(p[n + 1..])) + Trail(p[n + 1..])
    ensures Collapse(p, true) == Join(Segments(p)) + Trail(p)
  {
    var q := p[n + 1..];
    var run, segs := p[..n], Segments(q);
    SplitAtFirst(p, n);
    JoinCons(run, segs);
    assert segs == [] ==> Join(segs) + Trail(q) == "";
    hide Collapse, Segments, Join, Trail;
    Regroup(run + "/", Join(segs), Trail(q));
    assert run + "/" + "" == run + "/";
  }

  lemma {:induction false} CollapseIsJoin(p: string)
    ensures Collapse(p, true) == Join(Segments(p)) + Trail(p)
    decreases |p|
  {
    if p == "" {
    } else if p[0] == '/' {
      CollapseIsJoin(p[1..]);
    } else {
      var n := RunLength(p);
      if n == |p| {
        CollapseOfRun(p, n, true);
        assert p[..n] == p;
      } else {
        CollapseIsJoin(p[n + 1..]);
        CollapseAtFirst(p, n);
      }
    }
  }

  lemma {:induction false} NoSegmentsEndInSlash(p: string)
    requires Segments(p) == []
    ensures p != "" ==> p[|p| - 1] == '/'
    decreases |p|
  {
    if p != "" {
      NoSegmentsEndInSlash(p[1..]);
    }
  }

  lemma {:induction false} JoinEndsInSegment(segs: seq<string>)
    requires segs != [] && forall i | 0 <= i < |segs| :: IsSegment(segs[i])
    ensures Join(segs) != "" && Join(segs)[|Join(segs)| - 1] != '/' && Join(segs)[0] != '/'
    decreases |segs|
  {
    if |segs| > 1 {
      JoinEndsInSegment(segs[1..]);
    }
  }

  lemma CollapseOfPath(p: string)
    ensures Collapse(p, false) == (if Absolute(p) then "/" else "") + Join(Segments(p)) + Trail(p)
  {
    if Absolute(p) {
      CollapseIsJoin(p[1..]);
      assert Trail(p) == Trail(p[1..]);
      assert "/" + (Join(Segments(p)) + Trail(p)) == "/" + Join(Segments(p)) + Trail(p);
    } else if p != "" {
      CollapseOfRun(p, 1, false);
      CollapseOfRun(p, 1, true);
      CollapseIsJoin(p);
      assert "" + Join(Segments(p)) == Join(Segments(p));
    }
  }

  /** Normalising keeps the leading '/', if any, and the segments, joined by one '/' each. */
  lemma NormIsJoin(p: string)
    ensures Norm(p) == (if Absolute(p) then "/" else "") + Join(Segments(p))
  {
    var front := (if Absolute(p) then "/" else "") + Join(Segments(p));
    CollapseOfPath(p);
    SegmentsAreSegments(p);
    if Segments(p) == [] {
      assert |front| <= 1 && front + "" == front;
    } else {
      JoinEndsInSegment(Segments(p));
      LastSlash(front, Trail(p));
    }
  }

  lemma LastSlash(front: string, trail: string)
    requires front != "" && front[|front| - 1] != '/' && (trail == "" || trail == "/")
    ensures DropLastSlash(front + trail) == front
  {
  }

  lemma {:induction false} SegmentsOfJoin(segs: seq<string>)
    requires forall i | 0 <= i < |segs| :: IsSegment(segs[i])
    ensures Segments(Join(segs)) == segs
    decreases |segs|
  {
    if segs != [] {
      var n := |segs[0]|;
      var p := Join(segs);
      assert forall i | 0 <= i < n :: p[i] == segs[0][i];
      assert p[..n] == segs[0];
      RunIs(p, n);
      if |segs| == 1 {
        assert p[n..] == "";
      } else {
        SegmentsOfJoin(segs[1..]);
        assert p[n..] == "/" + Join(segs[1..]);
        assert p[n..][1..] == Join(segs[1..]);
      }
      assert [segs[0]] + segs[1..] == segs;
    }
  }

  lemma NormKeeps(p: string)
    ensures Segments(Norm(p)) == Segments(p)
    ensures Absolute(Norm(p)) == Absolute(p)
  {
    var segs := Segments(p);
    NormIsJoin(p);
    SegmentsAreSegments(p);
    SegmentsOfJoin(segs);
    assert ("/" + Join(segs))[1..] == Join(segs);
    if segs != [] {
      JoinEndsInSegment(segs);
    }
    assert !Absolute(p) ==> "" + Join(segs) == Join(segs);
  }

  /**
   Two paths have the same normal form if and only if they have the same segments, and both start with
   '/' or neither does: the hash of static routes and segment-wise matching identify the same paths.
   */
  lemma SameNormIffSameSegments(p: string, q: string)
    ensures Norm(p) == Norm(q) <==> Absolute(p) == Absolute(q) && Segments(p) == Segments(q)
  {
    NormKeeps(p);
    NormKeeps(q);
    NormIsJoin(p);
    NormIsJoin(q);
  }

  lemma NormIsIdempotent(p: string)
    ensures Norm(Norm(p)) == Norm(p)
  {
    NormKeeps(p);
    SameNormIffSameSegments(Norm(p), p);
  }
}
