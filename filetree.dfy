/**
 * An abstract directory tree under the scanned base directory. An entry is
 * its path relative to the base, a sequence of name segments; the base itself
 * is the empty path and always exists. Renaming an entry moves its whole
 * subtree, as renaming a directory does.
 */
module FileTree {

  type Path = seq<string>

  datatype Option<T> = None | Some(value: T)

  datatype Result<T, E> = Ok(value: T) | Err(error: E)

  /** Why a rename is refused; the checker lets any of them end the run. */
  datatype RenameError =
    | SourceMissing(source: Path)        // the entry to rename is gone
    | TargetExists(target: Path)         // another entry already has the new path
    | TargetParentMissing(target: Path)  // the directory to move into does not exist
    | TargetInsideSource(target: Path)   // a directory cannot move into itself

  /** `a` is `b` or one of its ancestors. */
  predicate IsPrefix(a: Path, b: Path) {
    |a| <= |b| && b[..|a|] == a
  }

  /**
   * pathlib's `path.parent` for an entry below the base. The parent of the
   * base itself is this model's own convention (the base again); the pass
   * never asks for it.
   */
  function Parent(p: Path): (r: Path)
    ensures p != [] ==> |r| == |p| - 1 && IsPrefix(r, p)
    ensures p == [] ==> r == []
  {
    if p == [] then [] else p[..|p| - 1]
  }

  /** pathlib's `path.name` for an entry below the base (the base gets the empty name here). */
  function BaseName(p: Path): (r: string)
    ensures p != [] ==> Parent(p) + [r] == p
    ensures p == [] ==> r == ""
  {
    if p == [] then "" else p[|p| - 1]
  }

  /**
   * pathlib's `dir / name` for a name without separators. pathlib drops
   * empty and "." segments, so `dir / ""` and `dir / "."` are `dir`; a ".."
   * segment is kept as it is.
   */
  function Join(dir: Path, name: string): (r: Path)
    ensures name != "" && name != "." ==> Parent(r) == dir && BaseName(r) == name
    ensures name == "" || name == "." ==> r == dir
  {
    if name == "" || name == "." then dir else dir + [name]
  }

  predicate Exists(entries: set<Path>, p: Path) {
    p == [] || p in entries
  }

  /**
   * The base is not one of its own entries and every entry lies in a
   * directory that exists. (The quantifier fires on `Parent(p)`, a term its
   * own body never produces for a new path, so it cannot feed itself.)
   */
  ghost predicate WellFormed(entries: set<Path>) {
    && [] !in entries
    && forall p {:trigger Parent(p)} :: p in entries ==> Exists(entries, Parent(p))
  }

  /** Where entry `p` ends up when the subtree at `src` moves to `dst`. */
  function Relocate(p: Path, src: Path, dst: Path): Path {
    if IsPrefix(src, p) then dst + p[|src|..] else p
  }

  /** The entries after moving the subtree at `src` to `dst`. */
  function Moved(entries: set<Path>, src: Path, dst: Path): set<Path> {
    set p | p in entries :: Relocate(p, src, dst)
  }

  /**
   * `os.rename(src, dst)` on the abstract tree. A target whose last segment is
   * ".." names the directory above its parent, which always exists (above the
   * base as well) and is not empty, so the operating system refuses the rename.
   */
  function TryRename(entries: set<Path>, src: Path, dst: Path): (r: Result<set<Path>, RenameError>)
    ensures r.Ok? ==> src in entries && Exists(r.value, dst)
    ensures Exists(entries, dst) && src in entries && dst != src ==> r == Err(TargetExists(dst))
    ensures r.Ok? <==>
      src in entries
      && (dst == src
          || (BaseName(dst) != ".." && !Exists(entries, dst)
              && Exists(entries, Parent(dst)) && !IsPrefix(src, dst)))
    ensures r == Err(SourceMissing(src)) <==> src !in entries
    ensures r == Err(TargetExists(dst)) <==> src in entries && dst != src && (Exists(entries, dst) || BaseName(dst) == "..")
    ensures r == Err(TargetParentMissing(dst)) ==> !Exists(entries, Parent(dst))
    ensures r == Err(TargetInsideSource(dst)) ==> IsPrefix(src, dst) && Exists(entries, Parent(dst))
  {
    if src !in entries then Err(SourceMissing(src))
    else if dst == src then Ok(entries)
    else if BaseName(dst) == ".." then Err(TargetExists(dst))
    else if Exists(entries, dst) then Err(TargetExists(dst))
    else if !Exists(entries, Parent(dst)) then Err(TargetParentMissing(dst))
    else if IsPrefix(src, dst) then Err(TargetInsideSource(dst))
    else
      assert src[|src|..] == [] && dst + [] == dst;
      assert Relocate(src, src, dst) in Moved(entries, src, dst);
      Ok(Moved(entries, src, dst))
  }

  /** In a well-formed tree every ancestor of an entry exists. */
  lemma {:induction false} AncestorsExist(entries: set<Path>, p: Path, a: Path)
    requires WellFormed(entries) && p in entries && IsPrefix(a, p)
    ensures Exists(entries, a)
    decreases |p|
  {
    if a != p {
      var q := Parent(p);
      assert IsPrefix(a, q) by {
        assert q[..|a|] == p[..|a|];
      }
      if q != [] {
        AncestorsExist(entries, q, a);
      } else {
        assert a == [];
      }
    }
  }

  /** An existing entry outside the moved subtree survives the move. */
  lemma MovedKeepsOutside(entries: set<Path>, src: Path, dst: Path, p: Path)
    requires Exists(entries, p) && !IsPrefix(src, p)
    ensures Exists(Moved(entries, src, dst), p)
  {
    if p != [] {
      assert Relocate(p, src, dst) == p;
    }
  }

  /** The same, for any candidate ancestor. */
  lemma AncestorExistsIf(entries: set<Path>, p: Path, a: Path)
    requires WellFormed(entries) && p in entries
    ensures IsPrefix(a, p) ==> Exists(entries, a)
  {
    if IsPrefix(a, p) {
      AncestorsExist(entries, p, a);
    }
  }

  /**
   * Where an entry of a moved tree comes from, when `dst` did not exist and
   * does not lie under `src`: an entry under `dst` is a relocated entry of the
   * subtree at `src`, any other entry was there before, and none is under `src`.
   */
  lemma MovedOrigin(entries: set<Path>, src: Path, dst: Path, q: Path)
    requires WellFormed(entries) && src in entries && !Exists(entries, dst) && !IsPrefix(src, dst)
    requires q in Moved(entries, src, dst)
    ensures !IsPrefix(src, q)
    ensures IsPrefix(dst, q) ==> src + q[|dst|..] in entries
    ensures !IsPrefix(dst, q) ==> q in entries
  {
    var o :| o in entries && q == Relocate(o, src, dst);
    AncestorExistsIf(entries, o, dst);
    AncestorExistsIf(entries, src, dst);
    if IsPrefix(src, o) {
      assert q == dst + o[|src|..];
      assert q[..|dst|] == dst;
      assert q[|dst|..] == o[|src|..];
      assert src + o[|src|..] == o;
      if |src| <= |dst| {
        assert q[..|src|] == dst[..|src|];
      } else if |src| <= |q| {
        assert q[..|src|][..|dst|] == dst;
      }
    }
  }

  /**
   * What a successful rename does: the subtree at `src` now sits at `dst`,
   * every entry outside both subtrees is untouched, no other entry appears,
   * and, unless `dst` is `src`, nothing is left under `src`.
   */
  lemma RenameEffect(entries: set<Path>, src: Path, dst: Path)
    requires WellFormed(entries) && TryRename(entries, src, dst).Ok?
    ensures var after := TryRename(entries, src, dst).value;
      && (forall p :: p in entries && IsPrefix(src, p) ==> dst + p[|src|..] in after)
      && (forall p :: p in entries && !IsPrefix(src, p) ==> p in after)
      && (forall p :: !IsPrefix(src, p) && !IsPrefix(dst, p) ==> (p in after <==> p in entries))
      && (forall q :: q in after && IsPrefix(dst, q) ==> src + q[|dst|..] in entries)
      && dst in after
      && (src != dst ==> forall q :: q in after ==> !IsPrefix(src, q))
  {
    var after := TryRename(entries, src, dst).value;
    if src == dst {
      forall p | p in entries && IsPrefix(src, p) ensures dst + p[|src|..] in after {
        assert dst + p[|src|..] == p;
      }
      forall q | q in after && IsPrefix(dst, q) ensures src + q[|dst|..] in entries {
        assert src + q[|dst|..] == q;
      }
    } else {
      assert after == Moved(entries, src, dst);
      forall p | p in entries && IsPrefix(src, p) ensures dst + p[|src|..] in after {
        assert Relocate(p, src, dst) == dst + p[|src|..];
      }
      assert dst + src[|src|..] == dst;
      forall p | p in entries && !IsPrefix(src, p) ensures p in after {
        assert Relocate(p, src, dst) == p;
      }
      forall q | q in after
        ensures !IsPrefix(src, q)
        ensures IsPrefix(dst, q) ==> src + q[|dst|..] in entries
        ensures !IsPrefix(dst, q) ==> q in entries
      {
        MovedOrigin(entries, src, dst, q);
      }
    }
  }

  /** The parent of a relocated entry is the relocated parent, or the parent of `dst`. */
  lemma RelocatedParent(o: Path, src: Path, dst: Path)
    requires IsPrefix(src, o) && o != [] && dst != []
    ensures Relocate(o, src, dst) != []
    ensures |o| == |src| ==> Parent(Relocate(o, src, dst)) == Parent(dst)
    ensures |o| > |src| ==>
      IsPrefix(src, Parent(o)) && Parent(Relocate(o, src, dst)) == Relocate(Parent(o), src, dst)
  {
    if |o| > |src| {
      var po := Parent(o);
      assert po[..|src|] == o[..|src|];
      assert Parent(dst + o[|src|..]) == dst + po[|src|..];
    } else {
      assert o[|src|..] == [];
      assert dst + o[|src|..] == dst;
    }
  }

  /** An ancestor of the parent is an ancestor of the entry. */
  lemma PrefixOfParent(a: Path, p: Path)
    ensures IsPrefix(a, Parent(p)) ==> IsPrefix(a, p)
  {
    if p != [] && IsPrefix(a, Parent(p)) {
      assert p[..|a|] == Parent(p)[..|a|];
    }
  }

  /** Moving an entry that has nothing under it, beside an entry outside it. */
  lemma MovedLeaf(e: Path, src: Path, dst: Path)
    requires !IsPrefix(src, e)
    ensures Moved({e, src}, src, dst) == {e, dst}
  {
    assert Relocate(e, src, dst) == e;
    assert Relocate(src, src, dst) == dst by {
      assert src[|src|..] == [] && dst + [] == dst;
    }
  }

  /** Moving a directory that holds one entry carries the entry along. */
  lemma MovedWithChild(src: Path, x: string, dst: Path)
    ensures Moved({src, src + [x]}, src, dst) == {dst, dst + [x]}
  {
    assert Relocate(src, src, dst) == dst by {
      assert src[|src|..] == [] && dst + [] == dst;
    }
    assert Relocate(src + [x], src, dst) == dst + [x] by {
      assert (src + [x])[..|src|] == src && (src + [x])[|src|..] == [x];
    }
  }

  /** A successful rename keeps the tree well formed. */
  lemma RenameKeepsWellFormed(entries: set<Path>, src: Path, dst: Path)
    requires WellFormed(entries) && TryRename(entries, src, dst).Ok?
    ensures WellFormed(TryRename(entries, src, dst).value)
  {
    if src != dst {
      var after := Moved(entries, src, dst);
      assert dst != [];
      forall q | q in after ensures q != [] && Exists(after, Parent(q)) {
        var o :| o in entries && q == Relocate(o, src, dst);
        if IsPrefix(src, o) {
          RelocatedParent(o, src, dst);
          if |o| == |src| {
            assert !IsPrefix(src, Parent(dst));
            MovedKeepsOutside(entries, src, dst, Parent(dst));
          } else {
            var po := Parent(o);
            assert po in entries;
          }
        } else {
          var po := Parent(o);
          PrefixOfParent(src, o);
          MovedKeepsOutside(entries, src, dst, po);
        }
      }
    }
  }

  /**
   * The filesystem the checker renames entries in. Its only state is the set
   * of entries below the base directory.
   */
  class FileSystem {
    var entries: set<Path>

    ghost predicate Valid()
      reads this
    {
      WellFormed(entries)
    }

    constructor (initial: set<Path>)
      requires WellFormed(initial)
      ensures Valid() && entries == initial
    {
      entries := initial;
    }

    /** `Path.rename`: on success the subtree moves; on failure nothing changes. */
    method Rename(src: Path, dst: Path) returns (error: Option<RenameError>)
      requires Valid()
      modifies this
      ensures Valid()
      ensures match TryRename(old(entries), src, dst)
        case Ok(after) => error == None && entries == after
        case Err(e) => error == Some(e) && entries == old(entries)
    {
      var outcome := TryRename(entries, src, dst);
      match outcome
      case Ok(after) =>
        RenameKeepsWellFormed(entries, src, dst);
        entries := after;
        error := None;
      case Err(e) =>
        error := Some(e);
    }
  }
}
