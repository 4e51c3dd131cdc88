/**
 Module discovery: a depth-first walk over import lists that appends a module
 after everything it imports has been walked.
 */
module Discovery {

  class Discoverer<M(==, !new)> {
    /** The readable module files and what each imports; the main module is read separately. */
    const files: map<M, seq<M>>
    const main: M
    const mainImports: seq<M>
    var visited: set<M>
    var discovered: seq<M>

    constructor (files: map<M, seq<M>>, main: M, mainImports: seq<M>)
      ensures this.files == files && this.main == main && this.mainImports == mainImports
      ensures visited == {} && discovered == []
    {
      this.files, this.main, this.mainImports := files, main, mainImports;
      visited, discovered := {}, [];
    }

    // ----- The import graph -----

    function Imports(m: M): seq<M> {
      if m == main then mainImports else if m in files then files[m] else []
    }

    ghost predicate IsPath(p: seq<M>) {
      p != [] && forall i :: 0 <= i < |p| - 1 ==> p[i + 1] in Imports(p[i])
    }

    /** `b` is `a` or is imported, directly or not, by `a`. */
    ghost predicate Reaches(a: M, b: M) {
      exists p :: IsPath(p) && p[0] == a && p[|p| - 1] == b
    }

    /** No module reachable from the main module imports itself, directly or not. */
    ghost predicate Acyclic() {
      forall m, x :: Reaches(main, m) && x in Imports(m) ==> !Reaches(x, m)
    }

    /** Every module that can be walked to can be read. */
    ghost predicate AllReadable() {
      forall x :: Reaches(main, x) ==> x == main || x in files
    }

    /** Every module of `s` comes after all its imports. */
    ghost predicate Ordered(s: seq<M>) {
      forall i, x :: 0 <= i < |s| && x in Imports(s[i]) ==> x in s[..i]
    }

    /** What a module imports is in its file, and for the main module in what was read first. */
    lemma ImportsAre(m: M)
      ensures Imports(main) == mainImports
      ensures m != main && m in files ==> Imports(m) == files[m]
      ensures m != main && m !in files ==> Imports(m) == []
    {
    }

    /** The modules reached are the least set that holds the main module and what the import lists of its members name. */
    lemma ReachedLeast(s: set<M>)
      requires main in s && (forall x :: x in mainImports ==> x in s)
      requires forall m, x :: m in s && m != main && m in files && x in files[m] ==> x in s
      ensures forall x :: Reaches(main, x) ==> x in s
      ensures Reaches(main, main) && (forall x :: x in mainImports ==> Reaches(main, x))
      ensures forall m, x :: Reaches(main, m) && m != main && m in files && x in files[m] ==> Reaches(main, x)
    {
      forall x | Reaches(main, x)
        ensures x in s
      {
        var p :| IsPath(p) && p[0] == main && p[|p| - 1] == x;
        ClosedPath(s, p);
      }
      ReachesSelf(main);
      forall x | x in mainImports
        ensures Reaches(main, x)
      {
        ReachesStep(main, main, x);
      }
      forall m, x | Reaches(main, m) && m != main && m in files && x in files[m]
        ensures Reaches(main, x)
      {
        ReachesStep(main, m, x);
      }
    }

    lemma ReachesSelf(a: M)
      ensures Reaches(a, a)
    {
      assert IsPath([a]);
    }

    lemma ReachesStep(a: M, b: M, c: M)
      requires Reaches(a, b) && c in Imports(b)
      ensures Reaches(a, c)
    {
      var p :| IsPath(p) && p[0] == a && p[|p| - 1] == b;
      assert IsPath(p + [c]);
    }

    lemma ReachesTrans(a: M, b: M, c: M)
      requires Reaches(a, b) && Reaches(b, c)
      ensures Reaches(a, c)
    {
      var p :| IsPath(p) && p[0] == a && p[|p| - 1] == b;
      var q :| IsPath(q) && q[0] == b && q[|q| - 1] == c;
      var r := p + q[1..];
      assert r[|r| - 1] == c;
      forall i | 0 <= i < |r| - 1
        ensures r[i + 1] in Imports(r[i])
      {
        if i >= |p| - 1 {
          assert r[i] == q[i - |p| + 1];
        }
      }
      assert IsPath(r);
    }

    /** A set closed under imports that holds the start of a path holds its end. */
    lemma {:induction false} ClosedPath(s: set<M>, p: seq<M>)
      requires IsPath(p) && p[0] in s
      requires forall m, x :: m in s && x in Imports(m) ==> x in s
      ensures p[|p| - 1] in s
      decreases |p|
    {
      if |p| > 1 {
        assert IsPath(p[1..]);
        ClosedPath(s, p[1..]);
      }
    }

    // ----- What a walk leaves behind -----

    /** The modules of `d` from index `from` on: new, distinct, readable, reached from `name`. */
    ghost predicate Fresh(d: seq<M>, from: nat, before: set<M>, name: M) {
      && from <= |d|
      && (forall i :: from <= i < |d| ==> d[i] in files && d[i] != main && d[i] !in before && Reaches(name, d[i]))
      && (forall i, j :: from <= i < j < |d| ==> d[i] != d[j])
    }

    /** Every import of `m` has been visited and is in `earlier`, or closes a cycle through `m`. */
    ghost predicate Settled(earlier: seq<M>, m: M, v: set<M>) {
      forall x :: x in Imports(m) ==> x in v && (x in earlier || Reaches(x, m))
    }

    /** Every module of `d` from index `from` on is settled by the modules before it. */
    ghost predicate After(d: seq<M>, v: set<M>, from: nat) {
      forall i :: from <= i < |d| ==> Settled(d[..i], d[i], v)
    }

    ghost function Members(d: seq<M>): set<M> {
      set m | m in d
    }

    /** The imports of `name` are being walked inside the walks of `open`: `d` up to `from` was there before. */
    ghost predicate Walking(d: seq<M>, v: set<M>, name: M, open: set<M>, from: nat, before: set<M>) {
      && from <= |d| && name in before && main in before
      && before == open + Members(d[..from]) + {name}
      && Fresh(d, from, before, name)
      && v == before + Members(d[from..])
      && After(d, v, from)
    }

    lemma WalkStarts(d: seq<M>, name: M, open: set<M>)
      requires main in open + Members(d) + {name}
      ensures Walking(d, open + Members(d) + {name}, name, open, |d|, open + Members(d) + {name})
    {
      assert d[..|d|] == d && d[|d|..] == [];
    }

    /** Walks the imports of `name`, whose import list is `imports`; `open` are the modules being walked. */
    method Discover(name: M, imports: seq<M>, ghost open: set<M>) returns (ok: bool)
      requires imports == Imports(name) && name !in visited && (name == main || name in files)
      requires visited == open + Members(discovered)
      requires forall a :: a in open ==> Reaches(a, name)
      requires main in visited || name == main
      modifies this
      ensures old(discovered) <= discovered
      ensures ok ==> Walking(discovered, visited, name, open, |old(discovered)|, old(visited) + {name})
      ensures ok ==> forall x :: x in imports ==> x in visited
      ensures !ok ==> exists x :: Reaches(name, x) && x != main && x !in files
      decreases (files.Keys + {main}) - visited, 1
    {
      hide Reaches, Fresh, After;
      visited := visited + {name};
      ghost var from, before := |discovered|, visited;
      WalkStarts(discovered, name, open);
      var i := 0;
      while i < |imports|
        invariant 0 <= i <= |imports|
        invariant old(discovered) <= discovered
        invariant Walking(discovered, visited, name, open, from, before)
        invariant forall j :: 0 <= j < i ==> imports[j] in visited
      {
        if imports[i] !in visited {
          ok := Import(imports[i], name, open, from, before);
          if !ok {
            return;
          }
        }
        i := i + 1;
      }
      ok := true;
    }

    /** Reads one import that has not been visited, walks it, and appends it. */
    method Import(child: M, name: M, ghost open: set<M>, ghost from: nat, ghost before: set<M>) returns (ok: bool)
      requires Walking(discovered, visited, name, open, from, before)
      requires child in Imports(name) && child !in visited
      requires forall a :: a in open ==> Reaches(a, name)
      modifies this
      ensures old(discovered) <= discovered
      ensures ok ==> Walking(discovered, visited, name, open, from, before) && child in visited
      ensures !ok ==> exists x :: Reaches(name, x) && x != main && x !in files
      decreases (files.Keys + {main}) - visited, 2
    {
      hide Reaches, After, Fresh;
      ghost var v0, d0 := visited, discovered;
      ReachesSelf(name);
      ReachesStep(name, name, child);
      if child !in files {
        return false;
      }
      forall a | a in open + {name}
        ensures Reaches(a, child)
      {
        if a != name {
          ReachesStep(a, name, child);
        }
      }
      assert discovered == discovered[..from] + discovered[from..];
      ok := Discover(child, files[child], open + {name});
      if !ok {
        ghost var x :| Reaches(child, x) && x != main && x !in files;
        ReachesTrans(name, child, x);
        return;
      }
      ghost var d1 := discovered;
      discovered := discovered + [child];
      Appended(child, name, open, from, before, v0, d0, visited, d1);
    }

    lemma MembersOf(a: seq<M>, b: seq<M>)
      ensures Members(a + b) == Members(a) + Members(b)
    {
    }

    /** What the walk of a child adds, with the child itself at the end, carries on the walk of its importer. */
    lemma Appended(child: M, name: M, open: set<M>, from: nat, before: set<M>, v0: set<M>, d0: seq<M>, v1: set<M>, d1: seq<M>)
      requires Walking(d0, v0, name, open, from, before)
      requires child in Imports(name) && child !in v0 && child in files
      requires forall a :: a in open + {name} ==> Reaches(a, child)
      requires d0 <= d1 && Walking(d1, v1, child, open + {name}, |d0|, v0 + {child})
      requires forall x :: x in Imports(child) ==> x in v1
      ensures Walking(d1 + [child], v1, name, open, from, before)
    {
      hide Reaches, Fresh, After;
      var d, more := d1 + [child], d1[|d0|..];
      assert d[from..] == d0[from..] + (more + [child]);
      MembersOf(d0[from..], more + [child]);
      MembersOf(more, [child]);
      assert d[..from] == d0[..from];
      FreshAppended(child, name, from, before, v0, d0, d1);
      VisitedOf(child, name, open, from, before, v0, d0, v1, d1);
      AfterAppended(child, from, v0, d0, v1, d1);
    }

    lemma FreshAppended(child: M, name: M, from: nat, before: set<M>, v0: set<M>, d0: seq<M>, d1: seq<M>)
      requires Fresh(d0, from, before, name) && v0 == before + Members(d0[from..])
      requires child in Imports(name) && child !in v0 && child in files && child != main
      requires d0 <= d1 && Fresh(d1, |d0|, v0 + {child}, child)
      ensures Fresh(d1 + [child], from, before, name)
    {
      var d := d1 + [child];
      ReachesSelf(name);
      ReachesStep(name, name, child);
      forall i | from <= i < |d|
        ensures d[i] in files && d[i] != main && d[i] !in before && Reaches(name, d[i])
      {
        if i < |d0| {
          assert d[i] == d0[i];
        } else if i < |d1| {
          ReachesTrans(name, child, d1[i]);
        }
      }
      forall i, j | from <= i < j < |d|
        ensures d[i] != d[j]
      {
        if i < |d0| {
          assert d[i] == d0[i] && d0[i] in d0[from..];
          assert j < |d0| ==> d[j] == d0[j];
        }
      }
    }

    lemma AfterAppended(child: M, from: nat, v0: set<M>, d0: seq<M>, v1: set<M>, d1: seq<M>)
      requires After(d0, v0, from) && from <= |d0| && v0 <= v1
      requires d0 <= d1 && After(d1, v1, |d0|) && Settled(d1, child, v1)
      ensures After(d1 + [child], v1, from)
    {
      hide Reaches;
      var d := d1 + [child];
      forall i | from <= i < |d|
        ensures Settled(d[..i], d[i], v1)
      {
        if i < |d0| {
          assert d[i] == d0[i] && d[..i] == d0[..i];
        } else if i < |d1| {
          assert d[i] == d1[i] && d[..i] == d1[..i];
        } else {
          assert d[i] == child && d[..i] == d1;
        }
      }
    }

    /** Whatever has been visited by the end of a walk is in the list or imports the walked module. */
    lemma VisitedOf(child: M, name: M, open: set<M>, from: nat, before: set<M>, v0: set<M>, d0: seq<M>, v1: set<M>, d1: seq<M>)
      requires Walking(d0, v0, name, open, from, before)
      requires forall a :: a in open + {name} ==> Reaches(a, child)
      requires d0 <= d1 && Walking(d1, v1, child, open + {name}, |d0|, v0 + {child})
      ensures v0 <= v1 && forall x :: x in v1 ==> x in d1 || Reaches(x, child)
    {
      hide Reaches, Fresh, After;
      ReachesSelf(child);
      MembersOf(d0[..from], d0[from..]);
      MembersOf(d0, d1[|d0|..]);
      assert d0 == d0[..from] + d0[from..] && d1 == d0 + d1[|d0|..];
    }

    // ----- The whole discovery -----

    /**
     Discovery succeeds exactly when every reachable module can be read; it then
     finds each reachable module once, and with the main module last the order is
     a build order exactly when the reachable imports have no cycle.
     */
    method Run() returns (ok: bool, order: seq<M>)
      requires visited == {} && discovered == []
      modifies this
      ensures ok <==> AllReadable()
      ensures ok ==> order == discovered + [main]
      ensures ok ==> forall m :: m in order <==> Reaches(main, m)
      ensures ok ==> forall i, j :: 0 <= i < j < |order| ==> order[i] != order[j]
      ensures ok ==> (Ordered(order) <==> Acyclic())
    {
      ok := Discover(main, mainImports, {});
      order := discovered + [main];
      if ok {
        Complete(discovered, visited);
      }
    }

    lemma Complete(d: seq<M>, v: set<M>)
      requires Walking(d, v, main, {}, 0, {main})
      requires forall x :: x in mainImports ==> x in v
      ensures AllReadable()
      ensures forall m :: m in d + [main] <==> Reaches(main, m)
      ensures forall i, j :: 0 <= i < j < |d + [main]| ==> (d + [main])[i] != (d + [main])[j]
      ensures Ordered(d + [main]) <==> Acyclic()
    {
      var order := d + [main];
      assert d[0..] == d;
      ReachesSelf(main);
      forall m
        ensures m in order <==> Reaches(main, m)
      {
        if Reaches(main, m) {
          var p :| IsPath(p) && p[0] == main && p[|p| - 1] == m;
          ClosedPath(v, p);
        }
      }
      if Acyclic() {
        AcyclicOrdered(d, v);
      }
      if Ordered(order) {
        OrderedAcyclic(order);
      }
    }

    lemma AcyclicOrdered(d: seq<M>, v: set<M>)
      requires Walking(d, v, main, {}, 0, {main}) && Acyclic()
      requires forall x :: x in mainImports ==> x in v
      ensures Ordered(d + [main])
    {
      var order := d + [main];
      assert d[0..] == d;
      ReachesSelf(main);
      forall i, x | 0 <= i < |order| && x in Imports(order[i])
        ensures x in order[..i]
      {
        if i < |d| {
          assert order[..i] == d[..i];
        } else {
          assert order[..i] == d;
        }
      }
    }

    /** In an order where imports come first, nothing reachable imports itself. */
    lemma OrderedAcyclic(order: seq<M>)
      requires Ordered(order) && order != [] && order[|order| - 1] == main
      requires forall m :: m in order <==> Reaches(main, m)
      requires forall i, j :: 0 <= i < j < |order| ==> order[i] != order[j]
      ensures Acyclic()
    {
      forall m, x | Reaches(main, m) && x in Imports(m) && Reaches(x, m)
        ensures false
      {
        var i :| 0 <= i < |order| && order[i] == m;
        var p :| IsPath(p) && p[0] == x && p[|p| - 1] == m;
        Downwards(order, i, p);
      }
    }

    /** Along a path, positions in such an order only go down. */
    lemma {:induction false} Downwards(order: seq<M>, hi: nat, p: seq<M>)
      requires Ordered(order) && hi <= |order| && IsPath(p) && p[0] in order[..hi]
      ensures p[|p| - 1] in order[..hi]
      decreases |p|
    {
      if |p| > 1 {
        var i :| 0 <= i < hi && order[i] == p[0];
        assert p[1] in order[..i];
        assert p[1] in order[..hi];
        assert IsPath(p[1..]);
        Downwards(order, hi, p[1..]);
      }
    }
  }
}
