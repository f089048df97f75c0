// The category file's builder: which categories of the taxonomy are kept, and the lines written
// for them.

module CategoryClosure {

  type Tag = string

  /** A category: the parents its entry names (none when it has no such field), and the French
      names and synonyms usable in the file. */
  datatype Entry = Entry(parents: seq<Tag>, names: seq<string>)

  type Taxonomy = map<Tag, Entry>

  datatype Line = Line(tag: Tag, parents: seq<Tag>, names: seq<string>)

  function Named(taxonomy: Taxonomy): set<Tag> {
    set tag | tag in taxonomy && taxonomy[tag].names != []
  }

  /** Every parent of `tag` that is a category of the taxonomy is in `keep`. */
  ghost predicate ParentsIn(taxonomy: Taxonomy, tag: Tag, keep: set<Tag>)
    requires tag in taxonomy
  {
    forall p :: p in taxonomy[tag].parents && p in taxonomy ==> p in keep
  }

  /** The named categories are in `keep`, and so are the ancestors of whatever is in it. */
  ghost predicate Closed(taxonomy: Taxonomy, keep: set<Tag>) {
    && Named(taxonomy) <= keep <= taxonomy.Keys
    && forall tag :: tag in keep ==> ParentsIn(taxonomy, tag, keep)
  }

  ghost predicate Least(taxonomy: Taxonomy, keep: set<Tag>) {
    forall other: set<Tag> :: Closed(taxonomy, other) ==> keep <= other
  }

  /** A list of a set's members, in the unspecified order iterating over it gives. */
  ghost predicate Lists(order: seq<Tag>, members: set<Tag>) {
    && (forall tag :: tag in order <==> tag in members)
    && forall i, j :: 0 <= i < j < |order| ==> order[i] != order[j]
  }

  /** What is kept is closed, and nothing is kept that need not be; whatever order the named
      categories are listed in. */
  method Close(taxonomy: Taxonomy, listed: seq<Tag>) returns (keep: set<Tag>)
    requires Lists(listed, Named(taxonomy))
    ensures Closed(taxonomy, keep) && Least(taxonomy, keep)
  {
    keep := Named(taxonomy);
    var stack := listed;
    while stack != []
      invariant Named(taxonomy) <= keep <= taxonomy.Keys
      invariant forall tag :: tag in stack ==> tag in keep
      invariant forall tag :: tag in keep && tag !in stack ==> ParentsIn(taxonomy, tag, keep)
      invariant Least(taxonomy, keep)
      decreases taxonomy.Keys - keep, |stack|
    {
      var tag := stack[|stack| - 1];
      stack := stack[..|stack| - 1];
      ghost var kept, rest := keep, stack;
      var parents := taxonomy[tag].parents;
      for i := 0 to |parents|
        invariant Named(taxonomy) <= keep <= taxonomy.Keys && kept <= keep
        invariant keep == kept ==> stack == rest
        invariant forall t :: t in stack ==> t in keep
        invariant forall t :: t in keep && t !in stack && t != tag ==> ParentsIn(taxonomy, t, keep)
        invariant forall j :: 0 <= j < i && parents[j] in taxonomy ==> parents[j] in keep
        invariant Least(taxonomy, keep)
      {
        var parent := parents[i];
        if parent in taxonomy && parent !in keep {
          StaysLeast(taxonomy, keep, tag, parent);
          ghost var before := stack;
          keep := keep + {parent};
          stack := stack + [parent];
          assert forall t :: t in stack <==> t in before || t == parent;
        }
      }
      LessRemains(kept, keep, taxonomy.Keys);
    }
  }

  lemma LessRemains(kept: set<Tag>, keep: set<Tag>, tags: set<Tag>)
    requires kept <= keep <= tags
    ensures keep == kept || tags - keep < tags - kept
  {
    if keep != kept {
      var grown :| grown in keep && grown !in kept;
      assert grown in tags - kept;
    }
  }

  lemma StaysLeast(taxonomy: Taxonomy, keep: set<Tag>, tag: Tag, parent: Tag)
    requires Least(taxonomy, keep) && tag in keep && tag in taxonomy
    requires parent in taxonomy && parent in taxonomy[tag].parents
    ensures Least(taxonomy, keep + {parent})
  {
    forall other: set<Tag> | Closed(taxonomy, other) ensures keep + {parent} <= other {
      assert ParentsIn(taxonomy, tag, other);
    }
  }

  /** The parents written in a line: those that are kept, in the entry's order. */
  function KeptParents(parents: seq<Tag>, keep: set<Tag>): seq<Tag> {
    if parents == [] then []
    else
      var last := parents[|parents| - 1];
      KeptParents(parents[..|parents| - 1], keep) + (if last in keep then [last] else [])
  }

  lemma {:induction false} KeptParentsMembers(parents: seq<Tag>, keep: set<Tag>)
    ensures forall p :: p in KeptParents(parents, keep) <==> p in parents && p in keep
  {
    if parents != [] {
      var rest, last := parents[..|parents| - 1], parents[|parents| - 1];
      KeptParentsMembers(rest, keep);
      assert forall p :: p in parents <==> p in rest || p == last;
    }
  }

  ghost predicate Spells(taxonomy: Taxonomy, keep: set<Tag>, lines: seq<Line>) {
    && (forall tag :: tag in keep <==> exists i :: 0 <= i < |lines| && lines[i].tag == tag)
    && (forall i, j :: 0 <= i < j < |lines| ==> lines[i].tag != lines[j].tag)
    && (forall line :: line in lines ==>
          && line.tag in taxonomy
          && line.parents == KeptParents(taxonomy[line.tag].parents, keep)
          && line.names == taxonomy[line.tag].names)
  }

  /** One line for each kept category and no other, in the order given. */
  method Emit(taxonomy: Taxonomy, keep: set<Tag>, order: seq<Tag>) returns (lines: seq<Line>)
    requires keep <= taxonomy.Keys && Lists(order, keep)
    ensures |lines| == |order| && forall i :: 0 <= i < |order| ==> lines[i].tag == order[i]
    ensures Spells(taxonomy, keep, lines)
  {
    lines := [];
    for n := 0 to |order|
      invariant |lines| == n
      invariant forall i :: 0 <= i < n ==>
        && lines[i].tag == order[i] && order[i] in keep
        && lines[i].parents == KeptParents(taxonomy[order[i]].parents, keep)
        && lines[i].names == taxonomy[order[i]].names
    {
      var entry := taxonomy[order[n]];
      var parents := [];
      for i := 0 to |entry.parents|
        invariant parents == KeptParents(entry.parents[..i], keep)
      {
        assert entry.parents[..i + 1][..i] == entry.parents[..i];
        if entry.parents[i] in keep {
          parents := parents + [entry.parents[i]];
        }
      }
      assert entry.parents[..|entry.parents|] == entry.parents;
      lines := lines + [Line(order[n], parents, entry.names)];
    }
  }

  // ---- What the file says ----------------------------------------------------------------------

  /** A way up the taxonomy from a named category, each step to a parent that is a category. */
  ghost predicate Ascent(taxonomy: Taxonomy, path: seq<Tag>) {
    && path != []
    && (forall tag :: tag in path ==> tag in taxonomy)
    && taxonomy[path[0]].names != []
    && forall i :: 0 <= i < |path| - 1 ==> path[i + 1] in taxonomy[path[i]].parents
  }

  ghost predicate Ascended(taxonomy: Taxonomy, tag: Tag) {
    exists path :: Ascent(taxonomy, path) && path[|path| - 1] == tag
  }

  lemma {:induction false} AscentStaysKept(taxonomy: Taxonomy, keep: set<Tag>, path: seq<Tag>, i: nat)
    requires Closed(taxonomy, keep) && Ascent(taxonomy, path) && i < |path|
    ensures path[i] in keep
  {
    if i > 0 {
      AscentStaysKept(taxonomy, keep, path, i - 1);
      assert ParentsIn(taxonomy, path[i - 1], keep);
    }
  }

  lemma AscentGoesOn(taxonomy: Taxonomy, path: seq<Tag>, parent: Tag)
    requires Ascent(taxonomy, path) && parent in taxonomy
    requires parent in taxonomy[path[|path| - 1]].parents
    ensures Ascended(taxonomy, parent)
  {
    var longer := path + [parent];
    assert longer[|longer| - 1] == parent;
    assert forall tag :: tag in longer <==> tag in path || tag == parent;
    assert Ascent(taxonomy, longer);
  }

  lemma AscentsAreClosed(taxonomy: Taxonomy, ascended: set<Tag>)
    requires forall tag :: tag in ascended <==> tag in taxonomy && Ascended(taxonomy, tag)
    ensures Closed(taxonomy, ascended)
  {
    forall tag | tag in Named(taxonomy) ensures tag in ascended {
      assert Ascent(taxonomy, [tag]);
    }
    forall tag, p | tag in ascended && p in taxonomy[tag].parents && p in taxonomy
      ensures p in ascended
    {
      var path :| Ascent(taxonomy, path) && path[|path| - 1] == tag;
      AscentGoesOn(taxonomy, path, p);
    }
  }

  /** Kept is exactly: named in French, or an ancestor of such a category. */
  lemma KeptExactly(taxonomy: Taxonomy, keep: set<Tag>, tag: Tag)
    requires Closed(taxonomy, keep) && Least(taxonomy, keep)
    ensures tag in keep <==> Ascended(taxonomy, tag)
  {
    var ascended := set t | t in taxonomy && Ascended(taxonomy, t);
    AscentsAreClosed(taxonomy, ascended);
    forall path | Ascent(taxonomy, path) && path[|path| - 1] == tag ensures tag in keep {
      AscentStaysKept(taxonomy, keep, path, |path| - 1);
    }
  }

  /** No way up from a named category is cut in the file: each step is a parent written in a line. */
  lemma AscentIsWritten(taxonomy: Taxonomy, keep: set<Tag>, lines: seq<Line>, path: seq<Tag>, i: nat)
    requires Closed(taxonomy, keep) && Spells(taxonomy, keep, lines)
    requires Ascent(taxonomy, path) && i + 1 < |path|
    ensures exists line :: line in lines && line.tag == path[i] && path[i + 1] in line.parents
  {
    AscentStaysKept(taxonomy, keep, path, i);
    AscentStaysKept(taxonomy, keep, path, i + 1);
    var n :| 0 <= n < |lines| && lines[n].tag == path[i];
    assert lines[n] in lines;
    KeptParentsMembers(taxonomy[path[i]].parents, keep);
  }

  /** Every parent written is itself a line, and the only parents left out of a line are those
      the taxonomy does not hold. */
  lemma ParentsAreLines(taxonomy: Taxonomy, keep: set<Tag>, lines: seq<Line>, line: Line, parent: Tag)
    requires Closed(taxonomy, keep) && Spells(taxonomy, keep, lines) && line in lines
    ensures parent in line.parents <==> parent in taxonomy[line.tag].parents && parent in taxonomy
    ensures parent in line.parents ==> exists other :: other in lines && other.tag == parent
  {
    KeptParentsMembers(taxonomy[line.tag].parents, keep);
    var n :| 0 <= n < |lines| && lines[n] == line;
    assert ParentsIn(taxonomy, line.tag, keep);
    forall i | 0 <= i < |lines| && lines[i].tag == parent
      ensures exists other :: other in lines && other.tag == parent
    {
      assert lines[i] in lines;
    }
  }
}
