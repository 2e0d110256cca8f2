/** The category tree of every site, as rows whose paths are kept up to date. */
module Categories {
  import opened Wrappers
  import opened CategoryPaths

  /** parent is 0 for a site's root. */
  datatype Category = Category(site: int, parent: int, directory: string, path: string)

  type Rows = map<int, Category>

  predicate Taken(rows: Rows, site: int, path: string) {
    exists id :: id in rows && rows[id].site == site && rows[id].path == path
  }

  /** A row's path is its parent's, its directory and a slash; a root's is a slash. */
  ghost predicate Placed(rows: Rows, id: int)
    requires id in rows
  {
    var c := rows[id];
    if c.parent == 0 then c.directory == "" && c.path == ROOT
    else
      && c.parent in rows && rows[c.parent].site == c.site
      && ValidDirectory(c.directory)
      && c.path == rows[c.parent].path + c.directory + "/"
  }

  ghost predicate Unique(rows: Rows) {
    forall i, j :: i in rows && j in rows && rows[i].site == rows[j].site && rows[i].path == rows[j].path ==> i == j
  }

  ghost predicate Tree(rows: Rows) {
    && 0 !in rows
    && (forall id :: id in rows ==> Placed(rows, id))
    && Unique(rows)
  }

  /** Every path in a tree is a valid one, and its site has a root. */
  lemma {:induction false} PathsAreValid(rows: Rows, id: int)
    requires Tree(rows) && id in rows
    ensures ValidPath(rows[id].path) && Taken(rows, rows[id].site, ROOT)
    decreases |rows[id].path|
  {
    var c := rows[id];
    assert Placed(rows, id);
    if c.parent != 0 {
      PathsAreValid(rows, c.parent);
      DirectoryHasNoSlash(c.directory);
      JoinIsValid(rows[c.parent].path, c.directory);
    }
  }

  /** Every prefix of a path that ends in a slash is the path of a row above it. */
  lemma {:induction false} PrefixIsTaken(rows: Rows, id: int, q: string)
    requires Tree(rows) && id in rows
    requires q != "" && q[|q| - 1] == '/' && q <= rows[id].path
    ensures Taken(rows, rows[id].site, q)
    decreases |rows[id].path|
  {
    var c := rows[id];
    assert Placed(rows, id);
    if q != c.path {
      assert c.parent != 0;
      DirectoryHasNoSlash(c.directory);
      PrefixOfChild(rows[c.parent].path, c.directory, q);
      PrefixIsTaken(rows, c.parent, q);
    }
  }

  /** A row below another has its parent at or below it too. */
  lemma ParentIsBelow(rows: Rows, top: int, id: int)
    requires Tree(rows) && top in rows && id in rows && id != top
    requires rows[top].site == rows[id].site && IsDescendant(rows[top].path, rows[id].path)
    ensures rows[id].parent in rows && IsDescendant(rows[top].path, rows[rows[id].parent].path)
  {
    var c, q := rows[id], rows[top].path;
    assert Placed(rows, id) && Placed(rows, top);
    assert q != c.path;
    if c.parent != 0 {
      DirectoryHasNoSlash(c.directory);
      PrefixOfChild(rows[c.parent].path, c.directory, q);
    }
  }

  // ---------------------------------------------------------------------
  // Moving a subtree
  // ---------------------------------------------------------------------

  /** The site's rows rewritten, and the moved row under its new parent. */
  function Moved(rows: Rows, id: int, parent: int, directory: string, newPath: string): Rows
    requires id in rows
  {
    map k | k in rows ::
      var row := if k == id then rows[k].(parent := parent, directory := directory) else rows[k];
      if row.site == rows[id].site then row.(path := Rewrite(row.path, rows[id].path, newPath)) else row
  }

  /** A move that CategoryMove.Resolve accepts: not of a root, not into itself, to a
      path that is not where the row already is. */
  ghost predicate Movable(rows: Rows, id: int, parent: int, directory: string) {
    && id in rows && parent in rows && rows[id].parent != 0
    && rows[parent].site == rows[id].site
    && !IsDescendant(rows[id].path, rows[parent].path)
    && ValidDirectory(directory)
    && rows[parent].path + directory + "/" != rows[id].path
  }

  /** A rewritten path is below the new prefix, so it is taken only if that is. */
  lemma RewrittenIsFree(rows: Rows, id: int, newPath: string, below: int, other: int)
    requires Tree(rows) && id in rows && below in rows && other in rows
    requires newPath != "" && newPath[|newPath| - 1] == '/' && !Taken(rows, rows[id].site, newPath)
    requires rows[below].site == rows[other].site == rows[id].site
    requires IsDescendant(rows[id].path, rows[below].path)
    ensures rows[other].path != Rewrite(rows[below].path, rows[id].path, newPath)
  {
    var moved := Rewrite(rows[below].path, rows[id].path, newPath);
    assert newPath <= moved;
    if rows[other].path == moved {
      PrefixIsTaken(rows, other, newPath);
      assert false;
    }
  }

  lemma MovedIsPlaced(rows: Rows, id: int, parent: int, directory: string, k: int)
    requires Tree(rows) && Movable(rows, id, parent, directory) && k in rows
    ensures Placed(Moved(rows, id, parent, directory, rows[parent].path + directory + "/"), k)
  {
    var oldPath, newPath := rows[id].path, rows[parent].path + directory + "/";
    var rows' := Moved(rows, id, parent, directory, newPath);
    var c := rows[k];
    assert Placed(rows, k);
    if k == id {
      assert oldPath[|oldPath|..] == "";
      assert rows'[parent].path == rows[parent].path;
    } else if c.site == rows[id].site && IsDescendant(oldPath, c.path) {
      ParentIsBelow(rows, id, k);
      SuffixOfChild(rows[c.parent].path, c.directory, |oldPath|, newPath);
    } else if c.parent != 0 {
      assert rows[c.parent].path <= c.path;
    } else {
      assert rows'[k] == c;
    }
  }

  lemma SuffixOfChild(parent: string, directory: string, cut: nat, newPrefix: string)
    requires cut <= |parent|
    ensures newPrefix + (parent + directory + "/")[cut..] == newPrefix + parent[cut..] + directory + "/"
  {
    assert (parent + directory + "/")[cut..] == parent[cut..] + directory + "/";
  }

  lemma MovedIsUnique(rows: Rows, id: int, parent: int, directory: string)
    requires Tree(rows) && Movable(rows, id, parent, directory)
    requires !Taken(rows, rows[id].site, rows[parent].path + directory + "/")
    ensures Unique(Moved(rows, id, parent, directory, rows[parent].path + directory + "/"))
  {
    var site, oldPath, newPath := rows[id].site, rows[id].path, rows[parent].path + directory + "/";
    var rows' := Moved(rows, id, parent, directory, newPath);
    forall i, j | i in rows' && j in rows' && rows'[i].site == rows'[j].site && rows'[i].path == rows'[j].path
      ensures i == j
    {
      if rows[i].site == site {
        SameAfterSameBefore(rows, id, newPath, i, j);
      }
      assert Unique(rows);
    }
  }

  lemma SameAfterSameBefore(rows: Rows, id: int, newPath: string, i: int, j: int)
    requires Tree(rows) && id in rows && i in rows && j in rows
    requires newPath != "" && newPath[|newPath| - 1] == '/' && !Taken(rows, rows[id].site, newPath)
    requires rows[i].site == rows[j].site == rows[id].site
    ensures Rewrite(rows[i].path, rows[id].path, newPath) == Rewrite(rows[j].path, rows[id].path, newPath) ==>
              rows[i].path == rows[j].path
  {
    var oldPath, p, q := rows[id].path, rows[i].path, rows[j].path;
    if IsDescendant(oldPath, p) && IsDescendant(oldPath, q) {
      RewriteBack(oldPath, newPath, p);
      RewriteBack(oldPath, newPath, q);
    } else if IsDescendant(oldPath, p) {
      hide Tree, Taken;
      RewrittenIsFree(rows, id, newPath, i, j);
    } else if IsDescendant(oldPath, q) {
      hide Tree, Taken;
      RewrittenIsFree(rows, id, newPath, j, i);
    }
  }

  /** What is below the new prefix afterwards says what was below the old one. */
  lemma RewriteBack(oldPath: string, newPath: string, path: string)
    requires IsDescendant(oldPath, path)
    ensures path == oldPath + Rewrite(path, oldPath, newPath)[|newPath|..]
  {
    assert (newPath + path[|oldPath|..])[|newPath|..] == path[|oldPath|..];
  }

  /** The path a subtree moves to is never inside that subtree. */
  lemma TargetIsOutside(rows: Rows, id: int, parent: int, directory: string)
    requires Tree(rows) && Movable(rows, id, parent, directory)
    ensures !IsDescendant(rows[id].path, rows[parent].path + directory + "/")
  {
    assert Placed(rows, id);
    DirectoryHasNoSlash(directory);
    if IsDescendant(rows[id].path, rows[parent].path + directory + "/") {
      PrefixOfChild(rows[parent].path, directory, rows[id].path);
    }
  }

  /** An accepted move leaves a tree exactly when nobody had the new path. */
  lemma MoveKeepsTree(rows: Rows, id: int, parent: int, directory: string)
    requires Tree(rows) && Movable(rows, id, parent, directory)
    ensures var newPath := rows[parent].path + directory + "/";
            Tree(Moved(rows, id, parent, directory, newPath)) <==> !Taken(rows, rows[id].site, newPath)
  {
    var newPath := rows[parent].path + directory + "/";
    var rows' := Moved(rows, id, parent, directory, newPath);
    if Taken(rows, rows[id].site, newPath) {
      var other :| other in rows && rows[other].site == rows[id].site && rows[other].path == newPath;
      TargetIsOutside(rows, id, parent, directory);
      assert rows[id].path[|rows[id].path|..] == "";
      assert rows'[other].path == rows'[id].path && other != id;
    } else {
      forall k | k in rows' ensures Placed(rows', k) {
        MovedIsPlaced(rows, id, parent, directory, k);
      }
      MovedIsUnique(rows, id, parent, directory);
    }
  }

  /** Rows outside the subtree are untouched, and the rows below the new path
      afterwards are the rows that were below the old one. */
  lemma SubtreeMovesWhole(rows: Rows, id: int, parent: int, directory: string, k: int)
    requires Tree(rows) && Movable(rows, id, parent, directory) && k in rows && rows[k].site == rows[id].site
    requires !Taken(rows, rows[id].site, rows[parent].path + directory + "/")
    ensures var newPath := rows[parent].path + directory + "/";
            var rows' := Moved(rows, id, parent, directory, newPath);
            && (IsDescendant(newPath, rows'[k].path) <==> IsDescendant(rows[id].path, rows[k].path))
            && (!IsDescendant(rows[id].path, rows[k].path) ==> rows'[k] == rows[k])
            && PathDepth(rows'[k].path) - PathDepth(rows[k].path)
               == if IsDescendant(rows[id].path, rows[k].path) then PathDepth(newPath) - PathDepth(rows[id].path) else 0
  {
    var oldPath, newPath := rows[id].path, rows[parent].path + directory + "/";
    var rows' := Moved(rows, id, parent, directory, newPath);
    if !IsDescendant(oldPath, rows[k].path) {
      assert Placed(rows, k);
      assert rows'[k] == rows[k];
      if IsDescendant(newPath, rows[k].path) { PrefixIsTaken(rows, k, newPath); }
    } else {
      MoveKeepsTree(rows, id, parent, directory);
      PathsAreValid(rows, id);
      PathsAreValid(rows, k);
      PathsAreValid(rows', id);
      PathsAreValid(rows', k);
      assert oldPath[|oldPath|..] == "";
      DepthsShift(oldPath, newPath, rows[k].path[|oldPath|..], rows[k].path);
    }
  }

  lemma DepthsShift(oldPath: string, newPath: string, rest: string, path: string)
    requires path == oldPath + rest
    requires ValidPath(oldPath) && ValidPath(newPath) && ValidPath(path) && ValidPath(newPath + rest)
    ensures PathDepth(newPath + rest) - PathDepth(path) == PathDepth(newPath) - PathDepth(oldPath)
  {
    DepthCountsSlashes(oldPath);
    DepthCountsSlashes(newPath);
    DepthCountsSlashes(path);
    DepthCountsSlashes(newPath + rest);
    SlashesConcat(oldPath, rest);
    SlashesConcat(newPath, rest);
  }

  // ---------------------------------------------------------------------
  // The table
  // ---------------------------------------------------------------------

  /** What a client asks for: a new parent's path, a new directory, or both. */
  datatype Move = Move(parentPath: Option<string>, directory: Option<string>)

  /** CategoryMove.Resolve. */
  function Resolve(m: Move, c: Category, newParent: Category): Result<string, Error> {
    if c.parent == 0 then Err(Conflict)
    else if m == Move(None, None) then Err(Invalid)
    else if newParent.site != c.site then Err(Invalid)
    else if IsDescendant(c.path, newParent.path) then Err(Conflict)
    else JoinPath(newParent.path, NewDirectory(c, m))
  }

  /** The rows of the moved subtree. */
  function Subtree(rows: Rows, site: int, path: string): set<int> {
    set k | k in rows && rows[k].site == site && IsDescendant(path, rows[k].path)
  }

  /** The moved row under its new parent, no path rewritten yet. */
  function Hung(rows: Rows, id: int, parent: int, directory: string): Rows
    requires id in rows
  {
    rows[id := rows[id].(parent := parent, directory := directory)]
  }

  /** Every row of the subtree but these has been rewritten. */
  ghost predicate Rewriting(before: Rows, rows: Rows, id: int, parent: int, directory: string, newPath: string,
                            todo: set<int>)
    requires id in before
  {
    && rows.Keys == before.Keys
    && todo <= Subtree(before, before[id].site, before[id].path)
    && forall k :: k in rows ==>
         rows[k] == if k in todo then Hung(before, id, parent, directory)[k]
                    else Moved(before, id, parent, directory, newPath)[k]
  }

  /** While the rewrite is under way no row ever has the path another is given,
      unless somebody had the new path before. */
  lemma NoCollision(before: Rows, rows: Rows, id: int, parent: int, directory: string, newPath: string,
                    todo: set<int>, k: int, other: int)
    requires Tree(before) && id in before && newPath != "" && newPath[|newPath| - 1] == '/'
    requires Rewriting(before, rows, id, parent, directory, newPath, todo)
    requires k in todo && other in rows && other != k && rows[other].site == before[id].site
    requires !Taken(before, before[id].site, newPath)
    ensures rows[other].path != Rewrite(before[k].path, before[id].path, newPath)
  {
    if other in todo {
      RewrittenIsFree(before, id, newPath, k, other);
    } else {
      SameAfterSameBefore(before, id, newPath, k, other);
      assert Unique(before);
    }
  }

  function NewDirectory(c: Category, m: Move): string {
    if m.directory.Some? then m.directory.value else c.directory
  }

  /** The row, or the parent the move names, is not there. */
  predicate NoParentFound(rows: Rows, id: int, m: Move) {
    || id !in rows
    || (m.parentPath.Some? && !Taken(rows, rows[id].site, m.parentPath.value))
    || (m.parentPath.None? && rows[id].parent !in rows)
  }

  ghost predicate NamesParent(rows: Rows, id: int, m: Move, parent: int) {
    && id in rows && parent in rows
    && if m.parentPath.Some?
       then rows[parent].site == rows[id].site && rows[parent].path == m.parentPath.value
       else parent == rows[id].parent
  }

  /** Where a move to this parent takes the row. */
  function Target(rows: Rows, id: int, m: Move, parent: int): string
    requires id in rows && parent in rows
  {
    rows[parent].path + NewDirectory(rows[id], m) + "/"
  }

  /** A move that can be made: asked for, movable, and onto a path nobody has. */
  ghost predicate Accepted(rows: Rows, id: int, m: Move, parent: int) {
    && NamesParent(rows, id, m, parent) && m != Move(None, None)
    && Movable(rows, id, parent, NewDirectory(rows[id], m))
    && !Taken(rows, rows[id].site, Target(rows, id, m, parent))
  }

  lemma OneParent(rows: Rows, id: int, m: Move, p: int, q: int)
    requires Tree(rows) && NamesParent(rows, id, m, p) && NamesParent(rows, id, m, q)
    ensures p == q
  {
    assert Unique(rows);
  }

  lemma ResolveMeans(rows: Rows, id: int, m: Move, parent: int)
    requires Tree(rows) && NamesParent(rows, id, m, parent)
    ensures var r := Resolve(m, rows[id], rows[parent]);
            && (r.Ok? && r.value != rows[id].path <==>
                m != Move(None, None) && Movable(rows, id, parent, NewDirectory(rows[id], m)))
            && (r.Ok? ==> r.value == Target(rows, id, m, parent))
            && (r.Err? ==> r.error != NotFound)
  {
    PathsAreValid(rows, parent);
    assert Placed(rows, id);
  }

  lemma MovedRow(rows: Rows, id: int, m: Move, parent: int)
    requires Accepted(rows, id, m, parent)
    ensures var rows' := Moved(rows, id, parent, NewDirectory(rows[id], m), Target(rows, id, m, parent));
            && id in rows' && rows'[id].parent == parent && rows'[id].site == rows[id].site == rows[parent].site
            && rows'[id].directory == (if m.directory.Some? then m.directory.value else rows[id].directory)
            && rows'[id].path == rows[parent].path + rows'[id].directory + "/" != rows[id].path
  {
    assert rows[id].path[|rows[id].path|..] == "";
    assert Target(rows, id, m, parent) + "" == Target(rows, id, m, parent);
  }

  class Table {
    var rows: Rows

    /** The categories some document is filed in. */
    var filed: set<int>

    constructor ()
      ensures Tree(rows) && rows == map[] && filed == {}
    {
      rows, filed := map[], {};
    }

    /** A site starts with its root and nothing else. */
    method CreateSite(site: int, id: int)
      requires Tree(rows) && id != 0 && id !in rows
      requires forall k :: k in rows ==> rows[k].site != site
      modifies this`rows
      ensures Tree(rows) && rows == old(rows)[id := Category(site, 0, "", ROOT)]
    {
      Grown(rows, id, Category(site, 0, "", ROOT));
      rows := rows[id := Category(site, 0, "", ROOT)];
    }

    /** id is the row id the database assigns. */
    method Create(id: int, parent: int, directory: string) returns (r: Result<string, Error>)
      requires Tree(rows) && id != 0 && id !in rows
      modifies this`rows
      ensures Tree(rows)
      ensures r == Err(NotFound) <==> parent !in old(rows)
      ensures r == Err(Invalid) <==>
                && parent in old(rows)
                && (|directory| == 0 || |directory| > 64 || directory == "." || directory == ".."
                    || exists k :: 0 <= k < |directory| && !Unreserved(directory[k]))
      ensures r == Err(Conflict) <==>
                && parent in old(rows) && ValidDirectory(directory)
                && Taken(old(rows), old(rows)[parent].site, old(rows)[parent].path + directory + "/")
      ensures r.Ok? ==> parent in old(rows) && r.value == old(rows)[parent].path + directory + "/"
                        && rows == old(rows)[id := Category(old(rows)[parent].site, parent, directory, r.value)]
      ensures r.Err? ==> rows == old(rows)
    {
      if parent !in rows {
        return Err(NotFound);
      }
      PathsAreValid(rows, parent);
      r := JoinPath(rows[parent].path, directory);
      if r.Ok? {
        var site := rows[parent].site;
        if Taken(rows, site, r.value) {
          return Err(Conflict);
        }
        Grown(rows, id, Category(site, parent, directory, r.value));
        rows := rows[id := Category(site, parent, directory, r.value)];
      }
    }

    method ByPath(site: int, path: string) returns (r: Option<int>)
      ensures r.None? <==> !Taken(rows, site, path)
      ensures r.Some? ==> r.value in rows && rows[r.value].site == site && rows[r.value].path == path
    {
      var there := set k | k in rows && rows[k].site == site && rows[k].path == path;
      assert forall k :: k in rows && rows[k].site == site && rows[k].path == path ==> k in there;
      if there == {} {
        return None;
      }
      var k := AnyOf(there);
      r := Some(k);
    }

    /** Rewrites the subtree row by row, each checked against every other row. */
    method MoveSubtree(site: int, oldPath: string, newPath: string,
                       ghost before: Rows, ghost id: int, ghost parent: int, ghost directory: string)
      returns (ok: bool)
      requires Tree(before) && Movable(before, id, parent, directory)
      requires newPath == before[parent].path + directory + "/"
      requires rows == Hung(before, id, parent, directory)
      requires site == before[id].site && oldPath == before[id].path
      modifies this`rows
      ensures ok <==> !Taken(before, site, newPath)
      ensures ok ==> rows == Moved(before, id, parent, directory, newPath)
    {
      hide Tree, Movable, Taken, Rewrite, Hung;
      var todo := Subtree(rows, site, oldPath);
      TargetIsOutside(before, id, parent, directory);
      StartsRewriting(before, id, parent, directory, newPath);
      while todo != {}
        invariant Rewriting(before, rows, id, parent, directory, newPath, todo)
        invariant Taken(before, site, newPath) ==> id in todo
        decreases |todo|
      {
        var k := AnyOf(todo);
        var path := Rewrite(rows[k].path, oldPath, newPath);
        var others := set j | j in rows && j != k && rows[j].site == site && rows[j].path == path;
        CollidesIfTaken(before, rows, id, parent, directory, newPath, todo, k, others);
        if others != {} {
          return false;
        }
        OneMore(before, rows, id, parent, directory, newPath, todo, k);
        rows := rows[k := rows[k].(path := path)];
        todo := todo - {k};
      }
      ok := true;
    }

    method MoveCategory(id: int, move: Move) returns (r: Result<string, Error>)
      requires Tree(rows)
      modifies this`rows
      ensures Tree(rows)
      ensures r == Err(NotFound) <==> NoParentFound(old(rows), id, move)
      ensures r.Ok? <==> exists parent :: Accepted(old(rows), id, move, parent)
      ensures r.Ok? ==> forall parent :: Accepted(old(rows), id, move, parent) ==>
                && r.value == Target(old(rows), id, move, parent)
                && rows == Moved(old(rows), id, parent, NewDirectory(old(rows)[id], move), r.value)
      // The row has the directory and the parent it was to have, and the path they give it.
      ensures r.Ok? ==>
                && id in old(rows) && id in rows && rows[id].parent in old(rows)
                && var was, row, parent := old(rows)[id], rows[id], old(rows)[rows[id].parent];
                   && parent.site == was.site == row.site
                   && row.directory == (if move.directory.Some? then move.directory.value else was.directory)
                   && (if move.parentPath.Some? then parent.path == move.parentPath.value else row.parent == was.parent)
                   && r.value == row.path == parent.path + row.directory + "/" && r.value != was.path
      ensures r.Err? ==> rows == old(rows)
    {
      if id !in rows {
        return Err(NotFound);
      }
      var c := rows[id];
      var parent := c.parent;
      if move.parentPath.Some? {
        var found := ByPath(c.site, move.parentPath.value);
        if found.None? {
          return Err(NotFound);
        }
        parent := found.value;
      } else if parent !in rows {
        return Err(NotFound);
      }
      forall p | NamesParent(rows, id, move, p) ensures p == parent {
        OneParent(rows, id, move, p, parent);
      }
      ghost var before := rows;
      hide Tree, Movable, Taken, Target, Moved;
      r := MoveUnder(id, move, parent);
      if r.Ok? { MovedRow(before, id, move, parent); }
    }

    /** The transaction, once the new parent's row has been read. */
    method MoveUnder(id: int, move: Move, parent: int) returns (r: Result<string, Error>)
      requires Tree(rows) && NamesParent(rows, id, move, parent)
      modifies this`rows
      ensures Tree(rows)
      ensures r.Ok? <==> Accepted(old(rows), id, move, parent)
      ensures r.Ok? ==> r.value == Target(old(rows), id, move, parent)
                        && rows == Moved(old(rows), id, parent, NewDirectory(old(rows)[id], move), r.value)
      ensures r.Err? ==> rows == old(rows) && r.error != NotFound
    {
      var c := rows[id];
      ResolveMeans(rows, id, move, parent);
      r := Resolve(move, c, rows[parent]);
      hide Resolve, Taken, Moved, Movable;
      if r.Err? {
        return;
      }
      var newPath := r.value;
      if newPath == c.path {
        return Err(Conflict);
      }
      var directory := NewDirectory(c, move);
      MoveKeepsTree(rows, id, parent, directory);
      hide Tree;
      var saved := rows;
      rows := rows[id := c.(parent := parent, directory := directory)];
      var ok := MoveSubtree(c.site, c.path, newPath, saved, id, parent, directory);
      if !ok {
        rows := saved;
        return Err(Conflict);
      }
    }

    method DeleteCategory(id: int) returns (r: Result<Category, Error>)
      requires Tree(rows)
      modifies this`rows
      ensures Tree(rows)
      ensures r == Err(NotFound) <==> id !in old(rows)
      ensures r == Err(Conflict) <==>
                && id in old(rows)
                && (old(rows)[id].parent == 0 || id in filed || exists k :: k in old(rows) && old(rows)[k].parent == id)
      ensures rows == if r.Ok? then old(rows) - {id} else old(rows)
    {
      if id !in rows {
        return Err(NotFound);
      }
      if rows[id].parent == 0 || (exists k :: k in rows && rows[k].parent == id) || id in filed {
        return Err(Conflict);
      }
      r := Ok(rows[id]);
      Pruned(rows, id);
      rows := rows - {id};
    }
  }

  lemma Pruned(rows: Rows, id: int)
    requires Tree(rows) && id in rows && !exists k :: k in rows && rows[k].parent == id
    ensures Tree(rows - {id})
  {
    forall k | k in rows - {id} ensures Placed(rows - {id}, k) {
      assert Placed(rows, k);
    }
  }

  lemma Grown(rows: Rows, id: int, c: Category)
    requires Tree(rows) && id != 0 && id !in rows && !Taken(rows, c.site, c.path)
    requires Placed(rows[id := c], id) && c.parent != id
    ensures Tree(rows[id := c])
  {
    var rows' := rows[id := c];
    forall k | k in rows' ensures Placed(rows', k) {
      if k != id { assert Placed(rows, k); }
    }
  }

  lemma StartsRewriting(before: Rows, id: int, parent: int, directory: string, newPath: string)
    requires Movable(before, id, parent, directory)
    ensures var rows := Hung(before, id, parent, directory);
            && Subtree(rows, before[id].site, before[id].path) == Subtree(before, before[id].site, before[id].path)
            && id in Subtree(rows, before[id].site, before[id].path)
            && Rewriting(before, rows, id, parent, directory, newPath, Subtree(rows, before[id].site, before[id].path))
  {
  }

  lemma OneMore(before: Rows, rows: Rows, id: int, parent: int, directory: string, newPath: string,
                todo: set<int>, k: int)
    requires id in before && Rewriting(before, rows, id, parent, directory, newPath, todo) && k in todo
    ensures var path := Rewrite(rows[k].path, before[id].path, newPath);
            Rewriting(before, rows[k := rows[k].(path := path)], id, parent, directory, newPath, todo - {k})
  {
  }

  lemma CollidesIfTaken(before: Rows, rows: Rows, id: int, parent: int, directory: string, newPath: string,
                        todo: set<int>, k: int, others: set<int>)
    requires Tree(before) && Movable(before, id, parent, directory)
    requires newPath == before[parent].path + directory + "/"
    requires Rewriting(before, rows, id, parent, directory, newPath, todo) && k in todo
    requires others == set j | j in rows && j != k && rows[j].site == before[id].site
                                  && rows[j].path == Rewrite(rows[k].path, before[id].path, newPath)
    ensures others != {} ==> Taken(before, before[id].site, newPath)
    ensures k == id && Taken(before, before[id].site, newPath) ==> others != {}
  {
    assert rows[k].path == before[k].path;
    if !Taken(before, before[id].site, newPath) {
      forall j | j in rows && j != k && rows[j].site == before[id].site
        ensures rows[j].path != Rewrite(before[k].path, before[id].path, newPath)
      {
        NoCollision(before, rows, id, parent, directory, newPath, todo, k, j);
      }
    } else if k == id {
      var other :| other in before && before[other].site == before[id].site && before[other].path == newPath;
      TargetIsOutside(before, id, parent, directory);
      assert before[id].path[|before[id].path|..] == "";
      assert other in others;
    }
  }
}
