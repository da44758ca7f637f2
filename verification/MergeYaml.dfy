/** Laying one nested configuration over another. */
module MergeYaml {
  import opened Wrappers

  /** Everything that is not a map is a leaf. */
  datatype Node = Leaf(value: string) | Map(entries: map<string, Node>)

  type Entries = map<string, Node>

  /** The overlay's entries over the base's: two maps under one key merge, anything else in the overlay wins. */
  function Merge(base: Entries, overlay: Entries): (r: Entries)
    ensures r.Keys == base.Keys + overlay.Keys
    decreases Map(overlay)
  {
    map k | k in base.Keys + overlay.Keys ::
      if k !in overlay then base[k]
      else if k in base && base[k].Map? && overlay[k].Map? then
        (assert overlay[k] < Map(overlay); Map(Merge(base[k].entries, overlay[k].entries)))
      else overlay[k]
  }

  /** The node under a path of keys. */
  function At(m: Entries, path: seq<string>): Option<Node>
    requires path != []
    decreases |path|
  {
    if path[0] !in m then None
    else if |path| == 1 then Some(m[path[0]])
    else if m[path[0]].Map? then At(m[path[0]].entries, path[1..])
    else None
  }

  /** On the way to the path there is a leaf. */
  ghost predicate Cut(m: Entries, path: seq<string>)
    requires path != []
  {
    exists n :: 0 < n < |path| && At(m, path[..n]).Some? && At(m, path[..n]).value.Leaf?
  }

  lemma CutDeeper(m: Entries, path: seq<string>)
    requires |path| > 1 && path[0] in m
    ensures Cut(m, path) <==> m[path[0]].Leaf? || Cut(m[path[0]].entries, path[1..])
  {
    if m[path[0]].Leaf? {
      assert At(m, path[..1]) == Some(m[path[0]]);
    } else {
      var sub := m[path[0]].entries;
      forall n | 0 < n < |path| - 1 ensures At(m, path[..n + 1]) == At(sub, path[1..][..n]) {
        assert path[..n + 1][1..] == path[1..][..n];
      }
      if Cut(m, path) {
        var n :| 0 < n < |path| && At(m, path[..n]).Some? && At(m, path[..n]).value.Leaf?;
        assert n > 1;
        assert At(sub, path[1..][..n - 1]) == At(m, path[..n - 1 + 1]);
      }
      if Cut(sub, path[1..]) {
        var n :| 0 < n < |path| - 1 && At(sub, path[1..][..n]).Some? && At(sub, path[1..][..n]).value.Leaf?;
        assert At(m, path[..n + 1]).value.Leaf?;
      }
    }
  }

  lemma NotCutWithout(m: Entries, path: seq<string>)
    requires path != [] && path[0] !in m
    ensures !Cut(m, path)
  {
    forall n | 0 < n < |path| ensures At(m, path[..n]).None? {
    }
  }

  /**
    Under every path: a leaf of the overlay wins, a map of the overlay merges with a map of the base and replaces
    anything else, and where the overlay has nothing the base survives exactly if the overlay has no leaf on the way.
   */
  lemma {:induction false} PathLaw(base: Entries, overlay: Entries, path: seq<string>)
    requires path != []
    ensures At(Merge(base, overlay), path) ==
            match At(overlay, path)
            case Some(Leaf(v)) => Some(Leaf(v))
            case Some(Map(o)) =>
              var below := At(base, path);
              if below.Some? && below.value.Map? then Some(Map(Merge(below.value.entries, o))) else Some(Map(o))
            case None => if Cut(overlay, path) then None else At(base, path)
    decreases |path|
  {
    var k := path[0];
    if |path| > 1 {
      if k in overlay {
        CutDeeper(overlay, path);
        if k in base && base[k].Map? && overlay[k].Map? {
          PathLaw(base[k].entries, overlay[k].entries, path[1..]);
        }
      } else {
        NotCutWithout(overlay, path);
      }
    }
  }

  // ---- The laws of layering ----

  lemma EmptyIsNeutral(a: Entries)
    ensures Merge(a, map[]) == a && Merge(map[], a) == a
  {
  }

  lemma {:induction false} MergeWithItself(a: Entries)
    ensures Merge(a, a) == a
    decreases Map(a)
  {
    forall k | k in a ensures Merge(a, a)[k] == a[k] {
      if a[k].Map? {
        assert a[k] < Map(a);
        MergeWithItself(a[k].entries);
      }
    }
  }

  /** Laying the same overlay over twice changes nothing more. */
  lemma {:induction false} OverlayTwice(a: Entries, b: Entries)
    ensures Merge(Merge(a, b), b) == Merge(a, b)
    decreases Map(b)
  {
    forall k | k in b ensures Merge(Merge(a, b), b)[k] == Merge(a, b)[k] {
      if b[k].Map? {
        assert b[k] < Map(b);
        if k in a && a[k].Map? {
          OverlayTwice(a[k].entries, b[k].entries);
        } else {
          MergeWithItself(b[k].entries);
        }
      }
    }
  }

  // ---- The two loops ----

  /** Copies the base, then lays the overlay over it key by key, in whatever order the keys come. */
  method MergeYAML(base: Entries, overlay: Entries) returns (result: Entries)
    ensures result == Merge(base, overlay)
    decreases Map(overlay)
  {
    result := map[];
    var rest := base.Keys;
    while rest != {}
      invariant rest <= base.Keys && result.Keys == base.Keys - rest && forall k | k in result :: result[k] == base[k]
      decreases rest
    {
      var k :| k in rest;
      rest := rest - {k};
      result := result[k := base[k]];
    }
    rest := overlay.Keys;
    while rest != {}
      invariant rest <= overlay.Keys && result.Keys == base.Keys + (overlay.Keys - rest)
      invariant forall k | k in result ::
                  result[k] == if k in overlay && k !in rest then Merge(base, overlay)[k] else base[k]
      decreases rest
    {
      var k :| k in rest;
      rest := rest - {k};
      var v := overlay[k];
      if k in base && base[k].Map? && v.Map? {
        assert v < Map(overlay);
        var merged := MergeYAML(base[k].entries, v.entries);
        result := result[k := Map(merged)];
        continue;
      }
      result := result[k := v];
    }
  }
}
