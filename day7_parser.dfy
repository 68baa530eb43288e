/** Day 7: the parser that replays a terminal session (`$ cd <name>`, `$ ls` and its listing
    of `dir <name>` and `<size> <name>` lines) into the directory arena. */
module SessionParser {
  import opened Options
  import opened Text
  import opened Directories

  datatype LineType = CommandLine | FileLine | DirectoryLine

  /** `parse_line_type`: a line starting with `$` is a command, one starting with `dir` a
      directory, anything else a file. */
  function ParseLineType(line: string): (t: LineType)
    ensures t == CommandLine <==> |line| > 0 && line[0] == '$'
    ensures t == DirectoryLine <==> (|line| == 0 || line[0] != '$') && |line| >= 3 && line[..3] == "dir"
  {
    if StartsWith(line, "$") then CommandLine
    else if StartsWith(line, "dir") then DirectoryLine
    else FileLine
  }

  /** The three lines of the source's unit test. */
  lemma LineTypeExamples()
    ensures ParseLineType("$ ls") == CommandLine
    ensures ParseLineType("dir dfgjdlk") == DirectoryLine
    ensures ParseLineType("123456 dfgag") == FileLine
  {
  }

  /** `parse_file`: a size that fits a `usize`, then a name. `None` where the source panics. */
  function ParseFile(line: string): (r: Option<(nat, string)>)
    ensures r.Some? ==> r.value.0 <= USIZE_MAX && r.value.1 != []
    ensures r.Some? ==> forall j :: 0 <= j < |r.value.1| ==> !IsWhitespace(r.value.1[j])
  {
    var parts := SplitWhitespace(line);
    if |parts| == 0 then None
    else
      match ParseUnsigned(parts[0], USIZE_MAX)
      case None => None
      case Some(size) => if |parts| < 2 then None else Some((size, parts[1]))
  }

  /** A listed file line is parsed back to its size and name. */
  lemma ParseFileRoundTrip(size: nat, name: string)
    requires size <= USIZE_MAX && name != []
    requires forall j :: 0 <= j < |name| ==> !IsWhitespace(name[j])
    ensures ParseFile(NatToString(size) + " " + name) == Some((size, name))
  {
    var digits := NatToString(size);
    forall j | 0 <= j < |digits| ensures !IsWhitespace(digits[j]) {
      assert IsDigit(digits[j]);
    }
    SplitWhitespaceOfPair(digits, name);
    ParseUnsignedNatToString(size, USIZE_MAX);
  }

  /** `parse_dir_name`: the word after the first one. `None` where the source panics. */
  function ParseDirName(line: string): (r: Option<string>)
    ensures r.Some? ==> r.value != [] && forall j :: 0 <= j < |r.value| ==> !IsWhitespace(r.value[j])
  {
    var parts := SplitWhitespace(line);
    if |parts| < 2 then None else Some(parts[1])
  }

  /** A listed directory line is parsed back to its name. */
  lemma ParseDirNameRoundTrip(name: string)
    requires name != [] && forall j :: 0 <= j < |name| ==> !IsWhitespace(name[j])
    ensures ParseDirName("dir " + name) == Some(name)
  {
    SplitWhitespaceOfPair("dir", name);
    assert "dir" + " " + name == "dir " + name;
  }

  /** How many lines of a listing come before the next command. */
  function ListingLength(lines: seq<string>): (n: nat)
    ensures n <= |lines|
    ensures forall j :: 0 <= j < n ==> ParseLineType(lines[j]) != CommandLine
    ensures n < |lines| ==> ParseLineType(lines[n]) == CommandLine
  {
    if lines == [] || ParseLineType(lines[0]) == CommandLine then 0 else 1 + ListingLength(lines[1..])
  }

  /** A listing line the parser accepts. */
  predicate LineParses(line: string)
  {
    match ParseLineType(line)
    case CommandLine => true
    case FileLine => ParseFile(line).Some?
    case DirectoryLine => ParseDirName(line).Some?
  }

  predicate ListingParses(listing: seq<string>)
  {
    forall k :: 0 <= k < |listing| ==> LineParses(listing[k])
  }

  /** The files of a listing by name; a name listed twice keeps its last size. */
  function ListedFiles(listing: seq<string>): map<string, nat>
    requires ListingParses(listing)
  {
    if listing == [] then map[]
    else
      var before := ListedFiles(listing[..|listing| - 1]);
      var line := listing[|listing| - 1];
      if ParseLineType(line) == FileLine then
        var file := ParseFile(line).value;
        before[file.1 := file.0]
      else before
  }

  /** The names of the directories of a listing, in order. */
  function ListedDirs(listing: seq<string>): seq<string>
    requires ListingParses(listing)
  {
    if listing == [] then []
    else
      var before := ListedDirs(listing[..|listing| - 1]);
      var line := listing[|listing| - 1];
      if ParseLineType(line) == DirectoryLine then before + [ParseDirName(line).value] else before
  }

  /** A name is listed as a file exactly when some file line of the listing has it. */
  lemma {:induction false} ListedFilesKeys(listing: seq<string>, name: string)
    requires ListingParses(listing)
    ensures name in ListedFiles(listing) <==> exists k :: 0 <= k < |listing| && IsFileNamed(listing[k], name)
  {
    if listing != [] {
      var last := |listing| - 1;
      var before := listing[..last];
      ListedFilesLast(listing, name);
      ListedFilesKeys(before, name);
      if name in ListedFiles(listing) {
        if name in ListedFiles(before) {
          var k :| 0 <= k < |before| && IsFileNamed(before[k], name);
          assert listing[k] == before[k];
        } else {
          assert IsFileNamed(listing[last], name);
        }
      } else {
        forall k | 0 <= k < |listing| ensures !IsFileNamed(listing[k], name) {
          if k < last {
            assert listing[k] == before[k];
          }
        }
      }
    }
  }

  /** The last line of a listing adds its name when it is a file line, and nothing else. */
  lemma ListedFilesLast(listing: seq<string>, name: string)
    requires ListingParses(listing) && listing != []
    ensures ListingParses(listing[..|listing| - 1])
    ensures name in ListedFiles(listing) <==>
      name in ListedFiles(listing[..|listing| - 1]) || IsFileNamed(listing[|listing| - 1], name)
  {
    var line := listing[|listing| - 1];
    assert ListingParses(listing[..|listing| - 1]);
    if ParseLineType(line) == FileLine {
      assert LineParses(line);
    }
  }

  /** When a name is listed as a file several times, the last line with that name wins. */
  lemma {:induction false} ListedFilesLastWins(listing: seq<string>, name: string, k: nat)
    requires ListingParses(listing) && k < |listing| && IsFileNamed(listing[k], name)
    requires forall k' :: k < k' < |listing| ==> !IsFileNamed(listing[k'], name)
    ensures name in ListedFiles(listing) && ListedFiles(listing)[name] == ParseFile(listing[k]).value.0
  {
    var last := |listing| - 1;
    var before := listing[..last];
    assert ListingParses(before);
    if k < last {
      forall k' | k < k' < |before| ensures !IsFileNamed(before[k'], name) {
        assert before[k'] == listing[k'];
      }
      ListedFilesLastWins(before, name, k);
      assert !IsFileNamed(listing[last], name);
    }
  }

  predicate IsFileNamed(line: string, name: string)
  {
    ParseLineType(line) == FileLine && ParseFile(line).Some? && ParseFile(line).value.1 == name
  }

  /** The arena after the directories of a listing are added under `cursor`, in order. */
  function WithChildren(arena: seq<Directory>, cursor: nat, names: seq<string>): (r: seq<Directory>)
    requires cursor < |arena|
    ensures |r| == |arena| + |names|
  {
    if names == [] then arena
    else WithChild(WithChildren(arena, cursor, names[..|names| - 1]), cursor, names[|names| - 1])
  }

  /** Adding directories keeps the tree's shape. */
  lemma {:induction false} WithChildrenLinks(arena: seq<Directory>, cursor: nat, names: seq<string>)
    requires ArenaValid(arena) && cursor < |arena|
    ensures ArenaValid(WithChildren(arena, cursor, names))
  {
    if names != [] {
      var init := names[..|names| - 1];
      WithChildrenLinks(arena, cursor, init);
      WithChildLinks(WithChildren(arena, cursor, init), cursor, names[|names| - 1]);
    }
  }

  /** Adding directories keeps the size bookkeeping: each new directory lists nothing yet. */
  lemma {:induction false} WithChildrenValid(arena: seq<Directory>, listed: seq<nat>, cursor: nat, names: seq<string>)
    requires ArenaValid(arena) && cursor < |arena| && SizesAddUp(arena, listed)
    ensures ArenaValid(WithChildren(arena, cursor, names))
    ensures SizesAddUp(WithChildren(arena, cursor, names), listed + Zeros(|names|))
  {
    if names != [] {
      var init, last := names[..|names| - 1], names[|names| - 1];
      var before, listedBefore := WithChildren(arena, cursor, init), listed + Zeros(|init|);
      WithChildrenValid(arena, listed, cursor, init);
      WithChildValid(before, listedBefore, cursor, last);
      ZerosGrow(listed, |init|);
      assert WithChildren(arena, cursor, names) == WithChild(before, cursor, last);
    }
  }

  lemma ZerosGrow(listed: seq<nat>, n: nat)
    ensures listed + Zeros(n) + [0] == listed + Zeros(n + 1)
  {
  }

  function Zeros(n: nat): (z: seq<nat>)
    ensures |z| == n && forall k :: 0 <= k < n ==> z[k] == 0
  {
    seq(n, k => 0)
  }

  /** The sum of the sizes in a map of files. */
  ghost function MapSum(files: map<string, nat>): nat
    decreases |files|
  {
    if |files| == 0 then 0
    else
      var name :| name in files;
      files[name] + MapSum(files - {name})
  }

  /** The file `MapSum` takes out first. */
  lemma MapSumUnfold(files: map<string, nat>) returns (first: string)
    requires |files| > 0
    ensures first in files && MapSum(files) == files[first] + MapSum(files - {first})
  {
    first :| first in files && MapSum(files) == files[first] + MapSum(files - {first});
  }

  /** Any file can be taken out of the sum first. */
  lemma {:induction false} MapSumRemove(files: map<string, nat>, name: string)
    requires name in files
    ensures MapSum(files) == files[name] + MapSum(files - {name})
    decreases |files|
  {
    var first := MapSumUnfold(files);
    if first != name {
      assert |files - {first}| < |files| && |files - {name}| < |files|;
      assert name in files - {first} && first in files - {name};
      MapSumRemove(files - {first}, name);
      MapSumRemove(files - {name}, first);
      assert files - {first} - {name} == files - {name} - {first};
    }
  }

  /** `files.values().sum()`: the sizes added up in whatever order the map yields them. */
  method SumValues(files: map<string, nat>) returns (total: nat)
    ensures total == MapSum(files)
  {
    total := 0;
    var rest := files;
    while rest != map[]
      invariant total + MapSum(rest) == MapSum(files)
      decreases |rest|
    {
      var name :| name in rest;
      MapSumRemove(rest, name);
      total := total + rest[name];
      rest := rest - {name};
    }
  }

  /** The position in `idxs` of the first index satisfying `p`. */
  function FirstWhere(idxs: seq<nat>, p: nat -> bool): (r: Option<nat>)
    ensures r.Some? ==> r.value < |idxs| && p(idxs[r.value]) && forall j :: 0 <= j < r.value ==> !p(idxs[j])
    ensures r.None? ==> forall j :: 0 <= j < |idxs| ==> !p(idxs[j])
  {
    if idxs == [] then None
    else if p(idxs[0]) then Some(0)
    else match FirstWhere(idxs[1..], p)
      case None => None
      case Some(j) => Some(j + 1)
  }

  /** Where `$ cd <name>` leaves the cursor: `..` goes to the parent (and stays at the root),
      any other name to the first child of that name, or nowhere if there is none. A line with
      fewer than three words does not move the cursor. */
  function CdTarget(arena: seq<Directory>, cursor: nat, line: string): (target: nat)
    requires ArenaValid(arena) && cursor < |arena|
    ensures target < |arena|
  {
    var parts := SplitWhitespace(line);
    if |parts| < 3 then cursor
    else if parts[2] == ".." then
      match arena[cursor].parent
      case None => cursor
      case Some(p) => p
    else
      var name := parts[2];
      match FirstWhere(arena[cursor].children, (idx: nat) => idx < |arena| && arena[idx].name == name)
      case None => cursor
      case Some(j) => arena[cursor].children[j]
  }

  /** `cd` moves along one link of the tree or not at all: to the parent, or to a child with the
      requested name and no earlier child of that name. Case by case: a line of fewer than three
      words stays; `..` moves to the parent whenever there is one; any other name moves to the
      first child of that name whenever there is one, and stays only when no child has it. */
  lemma CdTargetMoves(arena: seq<Directory>, cursor: nat, line: string)
    requires ArenaValid(arena) && cursor < |arena|
    ensures |SplitWhitespace(line)| < 3 ==> CdTarget(arena, cursor, line) == cursor
    ensures var parts := SplitWhitespace(line);
      |parts| >= 3 && parts[2] == ".." ==>
        CdTarget(arena, cursor, line) == (if arena[cursor].parent.Some? then arena[cursor].parent.value else cursor)
    ensures var parts, children := SplitWhitespace(line), arena[cursor].children;
      |parts| >= 3 && parts[2] != ".." && (exists j :: 0 <= j < |children| && arena[children[j]].name == parts[2]) ==>
        exists j :: (&& 0 <= j < |children| && CdTarget(arena, cursor, line) == children[j]
                     && arena[children[j]].name == parts[2]
                     && forall j' :: 0 <= j' < j ==> arena[children[j']].name != parts[2])
    ensures var parts, children := SplitWhitespace(line), arena[cursor].children;
      |parts| >= 3 && parts[2] != ".." && (forall j :: 0 <= j < |children| ==> arena[children[j]].name != parts[2]) ==>
        CdTarget(arena, cursor, line) == cursor
    ensures var target := CdTarget(arena, cursor, line);
      var parts := SplitWhitespace(line);
      target == cursor
      || (|parts| >= 3 && parts[2] == ".." && arena[cursor].parent == Some(target))
      || (|parts| >= 3 && parts[2] != ".." && arena[target].parent == Some(cursor) && arena[target].name == parts[2]
          && (exists j :: (0 <= j < |arena[cursor].children| && arena[cursor].children[j] == target
                          && forall j' :: 0 <= j' < j ==> arena[arena[cursor].children[j']].name != parts[2])))
  {
  }

  /** A command line with fewer than two words makes `parse` loop for ever; the sessions the
      parser is run on have none. */
  predicate NoBareCommand(lines: seq<string>)
  {
    forall k :: 0 <= k < |lines| && ParseLineType(lines[k]) == CommandLine ==> |SplitWhitespace(lines[k])| >= 2
  }

  /** Whether `parse` gets through a session without a panic: it reads commands one by one,
      `ls` takes the listing after it, `cd` only its own line. */
  function Accepts(lines: seq<string>): bool
    requires NoBareCommand(lines)
    decreases |lines|
  {
    if lines == [] then true
    else if ParseLineType(lines[0]) != CommandLine then false
    else
      var command := SplitWhitespace(lines[0])[1];
      if command == "ls" then
        var rest := lines[1..];
        var n := ListingLength(rest);
        ListingParses(rest[..n]) && Accepts(rest[n..])
      else if command == "cd" then Accepts(lines[1..])
      else false
  }

  /** Reading one more line of a listing: a file line records its size under its name, a
      directory line adds its name to the directories. */
  lemma ListingStep(lines: seq<string>, k: nat)
    requires k < |lines| && ListingParses(lines[..k]) && LineParses(lines[k])
    ensures ListingParses(lines[..k + 1])
    ensures ListedFiles(lines[..k + 1]) ==
      if ParseLineType(lines[k]) == FileLine
      then ListedFiles(lines[..k])[ParseFile(lines[k]).value.1 := ParseFile(lines[k]).value.0]
      else ListedFiles(lines[..k])
    ensures ListedDirs(lines[..k + 1]) ==
      if ParseLineType(lines[k]) == DirectoryLine
      then ListedDirs(lines[..k]) + [ParseDirName(lines[k]).value]
      else ListedDirs(lines[..k])
  {
    assert lines[..k + 1][..k] == lines[..k];
  }

  /** The arena after `ls` in `cursor`: its directories added, its files recorded, and their
      total added to `cursor` and every directory above it. */
  ghost function AfterListing(arena: seq<Directory>, cursor: nat, listing: seq<string>): (r: seq<Directory>)
    requires ArenaValid(arena) && cursor < |arena| && ListingParses(listing)
    ensures ArenaValid(r) && |r| == |arena| + |ListedDirs(listing)|
  {
    var grown := WithChildren(arena, cursor, ListedDirs(listing));
    var files := ListedFiles(listing);
    WithChildrenLinks(arena, cursor, ListedDirs(listing));
    WithFilesLinks(grown, cursor, files);
    PropagatedShape(WithFiles(grown, cursor, files), cursor, MapSum(files));
    Propagated(WithFiles(grown, cursor, files), cursor, MapSum(files))
  }

  /** The arena and the cursor after `parse` has run through a session it accepts: each `ls`
      applies its listing to the cursor's directory, each `cd` moves the cursor to its target. */
  ghost function Session(arena: seq<Directory>, cursor: nat, lines: seq<string>): (r: (seq<Directory>, nat))
    requires ArenaValid(arena) && cursor < |arena| && NoBareCommand(lines) && Accepts(lines)
    ensures ArenaValid(r.0) && r.1 < |r.0| && |arena| <= |r.0|
    decreases |lines|
  {
    if lines == [] then (arena, cursor)
    else if SplitWhitespace(lines[0])[1] == "ls" then
      var rest := lines[1..];
      var n := ListingLength(rest);
      Session(AfterListing(arena, cursor, rest[..n]), cursor, rest[n..])
    else Session(arena, CdTarget(arena, cursor, lines[0]), lines[1..])
  }

  /** The arena after adding `value` to the size of the first `m` directories of `path`, in turn. */
  ghost function RaisedUpTo(arena: seq<Directory>, path: seq<nat>, value: nat, m: nat): (r: seq<Directory>)
    requires m <= |path| && forall k :: 0 <= k < |path| ==> path[k] < |arena|
    ensures |r| == |arena|
  {
    if m == 0 then arena
    else
      var r := RaisedUpTo(arena, path, value, m - 1);
      r[path[m - 1] := r[path[m - 1]].(size := r[path[m - 1]].size + value)]
  }

  /** Raising sizes changes no parent link. */
  lemma {:induction false} RaisedUpToKeepsLinks(arena: seq<Directory>, path: seq<nat>, value: nat, m: nat, i: nat)
    requires m <= |path| && forall k :: 0 <= k < |path| ==> path[k] < |arena|
    requires i < |arena|
    ensures RaisedUpTo(arena, path, value, m)[i].parent == arena[i].parent
  {
    if m > 0 {
      RaisedUpToKeepsLinks(arena, path, value, m - 1, i);
    }
  }

  /** Along a path without repeats, each of the first `m` directories is raised once and no other. */
  lemma {:induction false} RaisedUpToAt(arena: seq<Directory>, path: seq<nat>, value: nat, m: nat, i: nat)
    requires m <= |path| && forall k :: 0 <= k < |path| ==> path[k] < |arena|
    requires forall k, k' :: 0 <= k < k' < |path| ==> path[k'] < path[k]
    requires i < |arena|
    ensures RaisedUpTo(arena, path, value, m)[i] ==
      if exists k :: 0 <= k < m && path[k] == i then arena[i].(size := arena[i].size + value) else arena[i]
  {
    if m > 0 {
      RaisedUpToAt(arena, path, value, m - 1, i);
      RaisedUpToAt(arena, path, value, m - 1, path[m - 1]);
      if i != path[m - 1] && exists k :: 0 <= k < m && path[k] == i {
        var k :| 0 <= k < m && path[k] == i;
        assert k < m - 1;
      }
    }
  }

  /** Raising the directories of a path one by one is propagating along it. */
  lemma RaisedUpToIsPropagated(arena: seq<Directory>, cursor: nat, value: nat)
    requires ParentsBelow(arena) && cursor < |arena|
    requires forall k, k' :: 0 <= k < k' < |Path(arena, cursor)| ==> Path(arena, cursor)[k'] < Path(arena, cursor)[k]
    ensures RaisedUpTo(arena, Path(arena, cursor), value, |Path(arena, cursor)|) == Propagated(arena, cursor, value)
  {
    var path := Path(arena, cursor);
    forall i | 0 <= i < |arena|
      ensures RaisedUpTo(arena, path, value, |path|)[i] == Propagated(arena, cursor, value)[i]
    {
      RaisedUpToAt(arena, path, value, |path|, i);
      if i in path {
        var k :| 0 <= k < |path| && path[k] == i;
      }
    }
  }

  /** Where the loop of `propagate_value` stands: `c` is the `k`-th directory on the path
      from `cursor` and the first `k + 1` directories of that path have been raised. */
  ghost predicate RaiseState(arena: seq<Directory>, cursor: nat, value: nat, k: nat, c: nat, raised: seq<Directory>)
    requires ParentsBelow(arena) && cursor < |arena|
  {
    var path := Path(arena, cursor);
    && k < |path| && c == path[k] && |raised| == |arena|
    && raised == RaisedUpTo(arena, path, value, k + 1)
    && raised[c].parent == arena[c].parent
  }

  /** One turn of that loop: the parent of `c` is the next directory on the path. */
  lemma RaiseStep(arena: seq<Directory>, cursor: nat, value: nat, k: nat, raised: seq<Directory>)
    requires ParentsBelow(arena) && cursor < |arena|
    requires k < |Path(arena, cursor)| && RaiseState(arena, cursor, value, k, Path(arena, cursor)[k], raised)
    requires raised[Path(arena, cursor)[k]].parent.Some?
    ensures var c := Path(arena, cursor)[k];
      var parent := raised[c].parent.value;
      && parent < |raised|
      && RaiseState(arena, cursor, value, k + 1, parent,
           raised[parent := raised[parent].(size := raised[parent].size + value)])
  {
    var path := Path(arena, cursor);
    PathStep(arena, cursor, k);
    var parent := path[k + 1];
    RaisedUpToKeepsLinks(arena, path, value, k + 2, parent);
  }

  /** The parser's state is a valid tree, the cursor is one of its directories, and each
      directory's size is the total listed in it and below it. */
  ghost predicate Consistent(arena: seq<Directory>, cursor: nat, listed: seq<nat>)
  {
    ArenaValid(arena) && cursor < |arena| && SizesAddUp(arena, listed)
  }

  /** The loop of `propagate_value`: raise the size of `cursor`, then of its parent, its
      parent's parent and so on while there is one. */
  method RaiseAlongPath(arena: seq<Directory>, cursor: nat, value: nat) returns (raised: seq<Directory>)
    requires ArenaValid(arena) && cursor < |arena|
    ensures raised == Propagated(arena, cursor, value)
  {
    ghost var path := Path(arena, cursor);
    var c := cursor;
    raised := arena[c := arena[c].(size := arena[c].size + value)];
    ghost var k := 0;
    RaisedUpToKeepsLinks(arena, path, value, 1, c);
    while raised[c].parent.Some?
      invariant RaiseState(arena, cursor, value, k, c, raised)
      decreases |path| - k
    {
      var parent := raised[c].parent.value;
      RaiseStep(arena, cursor, value, k, raised);
      raised := raised[parent := raised[parent].(size := raised[parent].size + value)];
      c := parent;
      k := k + 1;
    }
    PathStep(arena, cursor, k);
    PathDecreasing(arena, cursor);
    RaisedUpToIsPropagated(arena, cursor, value);
  }

  /** The state of the listing loop after its first `k` lines: the files and the directories
      of those lines, the latter added under `cursor`. */
  ghost predicate Scanned(arena: seq<Directory>, listed: seq<nat>, cursor: nat, lines: seq<string>, k: nat,
                          files: map<string, nat>, grown: seq<Directory>, grownListed: seq<nat>)
  {
    cursor < |arena| && k <= |lines| && ListingParses(lines[..k])
    && files == ListedFiles(lines[..k])
    && grown == WithChildren(arena, cursor, ListedDirs(lines[..k]))
    && grownListed == listed + Zeros(|ListedDirs(lines[..k])|)
  }

  /** A file line records its size under its name. */
  lemma ScanFileLine(arena: seq<Directory>, listed: seq<nat>, cursor: nat, lines: seq<string>, k: nat,
                     files: map<string, nat>, grown: seq<Directory>, grownListed: seq<nat>, size: nat, name: string)
    requires Scanned(arena, listed, cursor, lines, k, files, grown, grownListed) && k < |lines|
    requires ParseLineType(lines[k]) == FileLine && ParseFile(lines[k]) == Some((size, name))
    ensures Scanned(arena, listed, cursor, lines, k + 1, files[name := size], grown, grownListed)
  {
    ListingStep(lines, k);
  }

  /** A `dir` line adds a directory under the cursor. */
  lemma ScanDirectoryLine(arena: seq<Directory>, listed: seq<nat>, cursor: nat, lines: seq<string>, k: nat,
                          files: map<string, nat>, grown: seq<Directory>, grownListed: seq<nat>, name: string)
    requires Scanned(arena, listed, cursor, lines, k, files, grown, grownListed) && k < |lines|
    requires ParseLineType(lines[k]) == DirectoryLine && ParseDirName(lines[k]) == Some(name)
    ensures cursor < |grown|
    ensures Scanned(arena, listed, cursor, lines, k + 1, files, WithChild(grown, cursor, name), grownListed + [0])
  {
    ListingStep(lines, k);
    ZerosGrow(listed, |ListedDirs(lines[..k])|);
  }

  /** One turn of the loop of `process_ls`, on line `k`: a command ends the listing (`stop`
      with `ok`), a line that makes the source panic ends it too (`stop` without `ok`), and a
      file or `dir` line is recorded. */
  method ScanLine(arena: seq<Directory>, ghost listed: seq<nat>, cursor: nat, lines: seq<string>, k: nat,
                  files: map<string, nat>, grown: seq<Directory>, ghost grownListed: seq<nat>)
    returns (stop: bool, ok: bool, files': map<string, nat>, grown': seq<Directory>, ghost grownListed': seq<nat>)
    requires k < |lines| && k <= ListingLength(lines)
    requires Scanned(arena, listed, cursor, lines, k, files, grown, grownListed)
    ensures !stop ==> ok && k < ListingLength(lines) && Scanned(arena, listed, cursor, lines, k + 1, files', grown', grownListed')
    ensures stop && ok ==> k == ListingLength(lines)
    ensures stop && !ok ==> k < ListingLength(lines) && !LineParses(lines[k])
  {
    files', grown', grownListed' := files, grown, grownListed;
    stop, ok := false, true;
    var line := lines[k];
    match ParseLineType(line) {
      case CommandLine =>
        stop := true;
      case FileLine =>
        var parsed := ParseFile(line);
        if parsed.None? {
          stop, ok := true, false;
          return;
        }
        var (size, name) := parsed.value;
        ScanFileLine(arena, listed, cursor, lines, k, files, grown, grownListed, size, name);
        files' := files[name := size];
      case DirectoryLine =>
        var name := ParseDirName(line);
        if name.None? {
          stop, ok := true, false;
          return;
        }
        ScanDirectoryLine(arena, listed, cursor, lines, k, files, grown, grownListed, name.value);
        grown' := WithChild(grown, cursor, name.value);
        grownListed' := grownListed + [0];
    }
  }

  /** The loop of `process_ls` on the parser's arena: read the `lines` of a listing up to
      the next command, adding each directory under `cursor` and collecting the files by name;
      `ok` is false at the first line that makes the source panic, the `k`-th. */
  method ScanListing(arena: seq<Directory>, ghost listed: seq<nat>, cursor: nat, lines: seq<string>)
    returns (ok: bool, files: map<string, nat>, grown: seq<Directory>, ghost grownListed: seq<nat>, k: nat)
    requires cursor < |arena|
    ensures k <= ListingLength(lines) && (ok <==> ListingParses(lines[..ListingLength(lines)]))
    ensures ListingParses(lines[..k])
    ensures grown == WithChildren(arena, cursor, ListedDirs(lines[..k]))
    ensures grownListed == listed + Zeros(|ListedDirs(lines[..k])|)
    ensures ok ==> k == ListingLength(lines) && files == ListedFiles(lines[..k])
    ensures !ok ==> k < |lines|
  {
    grown := arena;
    grownListed := listed;
    var n := ListingLength(lines);
    files := map[];
    k := 0;
    ok := true;
    while k < |lines|
      invariant k <= n && ok
      invariant Scanned(arena, listed, cursor, lines, k, files, grown, grownListed)
    {
      var stop, ok', files', grown', grownListed' := ScanLine(arena, listed, cursor, lines, k, files, grown, grownListed);
      if stop {
        ok := ok';
        break;
      }
      files, grown, grownListed := files', grown', grownListed';
      k := k + 1;
    }
    if ok {
      assert lines[..k] == lines[..n];
    } else {
      assert lines[..n][k] == lines[k];
    }
  }

  /** `propagate_value` on the parser's arena, with the listed totals it keeps consistent. */
  method PropagateIn(arena: seq<Directory>, ghost listed: seq<nat>, cursor: nat, value: nat)
    returns (raised: seq<Directory>, ghost listed': seq<nat>)
    requires Consistent(arena, cursor, listed)
    ensures raised == Propagated(arena, cursor, value)
    ensures Consistent(raised, cursor, listed')
  {
    raised := RaiseAlongPath(arena, cursor, value);
    listed' := listed[cursor := listed[cursor] + value];
    PropagatedSizesAddUp(arena, listed, cursor, value);
  }

  /** The arena `Parser::new` starts from: the root alone. */
  const ROOT_ONLY: seq<Directory> := [Directory(0, 0, "root", None, [], map[])]

  class Parser {
    /** The lines not read yet. */
    var contents: seq<string>
    var arena: seq<Directory>
    var cursor: nat
    /** The total of the files each directory's own listing recorded. */
    ghost var listed: seq<nat>

    ghost predicate Valid()
      reads this
    {
      Consistent(arena, cursor, listed)
    }

    /** `Parser::new`: the lines of the session and an arena holding only the root. */
    constructor (input: string)
      ensures Valid() && contents == Lines(input) && cursor == 0
      ensures arena == ROOT_ONLY && listed == [0]
    {
      contents := Lines(input);
      cursor := 0;
      arena := ROOT_ONLY;
      listed := [0];
    }

    /** `propagate_value`: add `value` to the size of the cursor and of every directory above it. */
    method PropagateValue(value: nat)
      requires Valid()
      modifies this
      ensures cursor == old(cursor) && contents == old(contents)
      ensures arena == Propagated(old(arena), cursor, value)
      ensures Valid()
    {
      var raised;
      ghost var listed';
      raised, listed' := PropagateIn(arena, listed, cursor, value);
      arena, listed := raised, listed';
    }

    /** The loop of `process_ls`: read listing lines up to the next command (which is put
        back), adding each directory under the cursor and collecting the files by name. `ok` is
        false where a listing line makes the source panic. */
    method ReadListing() returns (ok: bool, files: map<string, nat>, ghost n: nat)
      requires Valid()
      modifies this
      ensures Valid() && cursor == old(cursor)
      ensures n == ListingLength(old(contents))
      ensures ok <==> ListingParses(old(contents)[..n])
      ensures ok ==> (contents == old(contents)[n..] && files == ListedFiles(old(contents)[..n])
                      && arena == WithChildren(old(arena), cursor, ListedDirs(old(contents)[..n])))
    {
      var k, grown;
      ghost var grownListed;
      ok, files, grown, grownListed, k := ScanListing(arena, listed, cursor, contents);
      n := ListingLength(contents);
      WithChildrenValid(arena, listed, cursor, ListedDirs(contents[..k]));
      assert Consistent(grown, cursor, grownListed);
      arena, listed := grown, grownListed;
      contents := if ok then contents[k..] else contents[k + 1..];
    }

    /** `process_ls`: drop the `$ ls` line, read the listing up to the next command, add its
        directories under the cursor, record its files there and add their total to the cursor
        and every directory above it. `ok` is false where a listing line makes the source panic. */
    method ProcessLs() returns (ok: bool)
      requires Valid()
      modifies this
      ensures Valid() && cursor == old(cursor)
      ensures var rest := if old(contents) == [] then [] else old(contents)[1..];
        var n := ListingLength(rest);
        (ok <==> ListingParses(rest[..n]))
        && (ok ==> contents == rest[n..] && arena == AfterListing(old(arena), cursor, rest[..n]))
    {
      ghost var start := arena;
      if contents != [] {
        contents := contents[1..];
      }
      ghost var rest := contents;
      var files;
      ghost var n;
      ok, files, n := ReadListing();
      if !ok {
        return;
      }
      var value := SumValues(files);
      ghost var grown := arena;
      WithFilesValid(arena, listed, cursor, files);
      arena := arena[cursor := arena[cursor].(files := arena[cursor].files + files)];
      assert arena == WithFiles(grown, cursor, files);
      PropagateValue(value);
      return true;
    }

    /** `find_among`: the first directory among `idxs` whose index satisfies `p`. */
    method FindAmong(idxs: seq<nat>, p: nat -> bool) returns (found: Option<Directory>)
      requires forall k :: 0 <= k < |idxs| ==> idxs[k] < |arena|
      ensures found == match FirstWhere(idxs, p)
        case None => None
        case Some(j) => Some(arena[idxs[j]])
    {
      var k := 0;
      while k < |idxs|
        invariant k <= |idxs| && forall j :: 0 <= j < k ==> !p(idxs[j])
      {
        if p(idxs[k]) {
          return Some(arena[idxs[k]]);
        }
        k := k + 1;
      }
      return None;
    }

    /** `process_cd`: take the next line and move the cursor as `CdTarget` says. */
    method ProcessCd()
      requires Valid()
      modifies this
      ensures Valid() && arena == old(arena) && listed == old(listed)
      ensures old(contents) == [] ==> contents == [] && cursor == old(cursor)
      ensures old(contents) != [] ==>
        contents == old(contents)[1..] && cursor == CdTarget(arena, old(cursor), old(contents)[0])
    {
      if contents == [] {
        return;
      }
      var line := contents[0];
      contents := contents[1..];
      var parts := SplitWhitespace(line);
      if |parts| >= 3 {
        var name := parts[2];
        if name == ".." {
          match arena[cursor].parent {
            case Some(parent) => cursor := parent;
            case None =>
          }
        } else {
          var current := arena;
          var found := FindAmong(arena[cursor].children, (idx: nat) => idx < |current| && current[idx].name == name);
          if found.Some? {
            cursor := found.value.idx;
          }
        }
      }
    }

    /** `process_command`: dispatch the command at the front. `ok` is false where the source
        panics: a line that is not a command, or a command other than `ls` and `cd`. */
    method ProcessCommand() returns (ok: bool)
      requires Valid() && NoBareCommand(contents)
      modifies this
      ensures Valid()
      ensures old(contents) == [] ==> ok && contents == [] && arena == old(arena) && cursor == old(cursor)
      ensures ok ==> NoBareCommand(contents) && (old(contents) == [] || |contents| < |old(contents)|)
      ensures ok ==> (Accepts(old(contents)) <==> Accepts(contents))
      ensures !ok ==> !Accepts(old(contents))
      ensures ok && Accepts(old(contents)) ==>
        Session(old(arena), old(cursor), old(contents)) == Session(arena, cursor, contents)
    {
      if contents == [] {
        return true;
      }
      var line := contents[0];
      if ParseLineType(line) != CommandLine {
        return false;
      }
      var parts := SplitWhitespace(line);
      assert |parts| >= 2;
      var command := parts[1];
      ghost var before := contents;
      if command == "ls" {
        ok := ProcessLs();
        if ok {
          SuffixKeepsNoBareCommand(before, 1 + ListingLength(before[1..]));
          assert contents == before[1 + ListingLength(before[1..])..];
        }
      } else if command == "cd" {
        ProcessCd();
        SuffixKeepsNoBareCommand(before, 1);
        ok := true;
      } else {
        ok := false;
      }
    }

    /** `parse`: process commands until no line is left. `ok` is false where the source panics. */
    method Parse() returns (ok: bool)
      requires Valid() && NoBareCommand(contents)
      modifies this
      ensures Valid() && (ok <==> Accepts(old(contents))) && (ok ==> contents == [])
      ensures ok ==> (arena, cursor) == Session(old(arena), old(cursor), old(contents))
    {
      while contents != []
        invariant Valid() && NoBareCommand(contents)
        invariant Accepts(old(contents)) <==> Accepts(contents)
        invariant Accepts(old(contents)) ==>
          Session(old(arena), old(cursor), old(contents)) == Session(arena, cursor, contents)
        decreases |contents|
      {
        ok := ProcessCommand();
        if !ok {
          return;
        }
      }
      return true;
    }

    /** `get_root`: climb from the cursor to the parentless directory, which is the root. */
    method GetRoot() returns (root: Option<Directory>)
      requires Valid()
      ensures root == Some(arena[0]) && root.value.parent.None? && root.value.idx == 0
    {
      var directory := arena[cursor];
      while directory.parent.Some?
        invariant directory.idx < |arena| && directory == arena[directory.idx]
        decreases directory.idx
      {
        directory := arena[directory.parent.value];
      }
      return Some(directory);
    }

    /** `find_directories`: the directories satisfying `p`, in arena order. */
    method FindDirectories(p: Directory -> bool) returns (directories: seq<Directory>)
      ensures directories == Filter(arena, p)
    {
      directories := [];
      for i := 0 to |arena|
        invariant directories == Filter(arena[..i], p)
      {
        assert arena[..i + 1][..i] == arena[..i];
        if p(arena[i]) {
          directories := directories + [arena[i]];
        }
      }
      assert arena[..|arena|] == arena;
    }
  }

  /** A suffix of a session has no bare command if the session has none. */
  lemma SuffixKeepsNoBareCommand(lines: seq<string>, n: nat)
    requires NoBareCommand(lines) && n <= |lines|
    ensures NoBareCommand(lines[n..])
  {
    forall k | 0 <= k < |lines[n..]| ensures lines[n..][k] == lines[n + k] {
    }
  }

  /** The directories of `ds` satisfying `p`, in order. */
  function Filter(ds: seq<Directory>, p: Directory -> bool): (r: seq<Directory>)
    ensures |r| <= |ds|
    ensures forall k :: 0 <= k < |r| ==> r[k] in ds && p(r[k])
  {
    if ds == [] then []
    else
      var init := Filter(ds[..|ds| - 1], p);
      if p(ds[|ds| - 1]) then init + [ds[|ds| - 1]] else init
  }

  /** Every directory satisfying `p` is kept. */
  lemma {:induction false} FilterKeepsAll(ds: seq<Directory>, p: Directory -> bool, d: Directory)
    requires d in ds && p(d)
    ensures d in Filter(ds, p)
  {
    if ds[|ds| - 1] != d {
      assert d in ds[..|ds| - 1];
      FilterKeepsAll(ds[..|ds| - 1], p, d);
    }
  }
}
