/**
 * The relative-import fixer: `pathResolve` joins and normalises paths,
 * `adjustImport` turns an import under a sub-path into one under an alias,
 * and `parseFilesImports` rewrites every `import ... from '...'` line of a
 * file.
 */
module RelativeImports {
  import opened Wrappers
  import opened JsStrings

  /** `paths.reduce(...)` over `''`: each path is appended after a `/`,
      and a path starting with `/` replaces everything before it. */
  function Joined(paths: seq<string>): string
    decreases |paths|
  {
    if paths == [] then ""
    else
      var last := paths[|paths| - 1];
      if StartsWith(last, "/") then last else Joined(paths[..|paths| - 1]) + "/" + last
  }

  /** A segment that normalisation keeps. */
  predicate Clean(segment: string)
  {
    segment != "" && segment != "." && segment != ".."
  }

  /** The second `reduce`: `..` pops the last kept segment (nothing at the
      root), `.` and empty segments are dropped, the rest are kept. */
  function Normalize(segments: seq<string>): (r: seq<string>)
    ensures forall k :: 0 <= k < |r| ==> Clean(r[k]) && r[k] in segments
    decreases |segments|
  {
    if segments == [] then []
    else
      var acc := Normalize(segments[..|segments| - 1]);
      var segment := segments[|segments| - 1];
      if segment == ".." then (if acc == [] then [] else acc[..|acc| - 1])
      else if segment != "." && segment != "" then acc + [segment]
      else acc
  }

  /** `pathResolve(...paths)`: a last path not starting with `.` is
      returned as it is; otherwise the joined path, normalised, under `/`. */
  function PathResolve(paths: seq<string>): string
    requires |paths| >= 1
  {
    var last := paths[|paths| - 1];
    if !StartsWith(last, ".") then last
    else "/" + Join(Normalize(Split(Joined(paths), '/')), "/")
  }

  /** A resolved relative path starts with `/` and, past it, consists of
      kept segments only: no empty, `.` or `..` segment survives. */
  lemma ResolvedIsClean(paths: seq<string>)
    requires |paths| >= 1 && StartsWith(paths[|paths| - 1], ".")
    ensures var r := PathResolve(paths);
            |r| >= 1 && r[0] == '/'
            && (r == "/" || forall k :: 0 <= k < |Split(r[1..], '/')| ==> Clean(Split(r[1..], '/')[k]))
  {
    var pieces := Split(Joined(paths), '/');
    var segments := Normalize(pieces);
    var r := PathResolve(paths);
    assert r[1..] == Join(segments, "/");
    if segments != [] {
      assert forall k :: 0 <= k < |segments| ==> Free(segments[k], '/');
      SplitJoin(segments, '/');
    }
  }

  /** Joining restarts at a path that starts with `/`. */
  lemma {:induction false} JoinedResets(before: seq<string>, after: seq<string>)
    requires |after| >= 1 && StartsWith(after[0], "/")
    ensures Joined(before + after) == Joined(after)
    decreases |after|
  {
    var all := before + after;
    if |after| > 1 {
      assert all[..|all| - 1] == before + after[..|after| - 1];
      JoinedResets(before, after[..|after| - 1]);
    } else {
      assert all[|all| - 1] == after[0];
    }
  }

  /** An argument starting with `/` discards every argument before it. */
  lemma ResolveResets(before: seq<string>, after: seq<string>)
    requires |after| >= 1 && StartsWith(after[0], "/")
    ensures PathResolve(before + after) == PathResolve(after)
  {
    JoinedResets(before, after);
    assert (before + after)[|before + after| - 1] == after[|after| - 1];
  }

  /** `..` cancels the kept segment before it, and does nothing at the root;
      `.` and empty segments do nothing. */
  lemma NormalizeDots(segments: seq<string>, segment: string)
    ensures Clean(segment) ==> Normalize(segments + [segment, ".."]) == Normalize(segments)
    ensures Normalize(segments) == [] ==> Normalize(segments + [".."]) == []
    ensures segment == "." || segment == "" ==> Normalize(segments + [segment]) == Normalize(segments)
  {
    assert (segments + [segment, ".."])[..|segments| + 1] == segments + [segment];
    assert (segments + [segment])[..|segments|] == segments;
    assert (segments + [".."])[..|segments|] == segments;
    var acc := Normalize(segments);
    if Clean(segment) {
      assert Normalize(segments + [segment]) == acc + [segment];
      assert (acc + [segment])[..|acc|] == acc;
    }
  }

  /** Normalising kept segments changes nothing, so normalising twice is
      normalising once. */
  lemma {:induction false} NormalizeClean(segments: seq<string>)
    requires forall k :: 0 <= k < |segments| ==> Clean(segments[k])
    ensures Normalize(segments) == segments
    decreases |segments|
  {
    if segments != [] {
      NormalizeClean(segments[..|segments| - 1]);
    }
  }

  lemma NormalizeIdempotent(segments: seq<string>)
    ensures Normalize(Normalize(segments)) == Normalize(segments)
  {
    NormalizeClean(Normalize(segments));
  }

  /** `adjustImport(fileLocation, current, subPath, alias)`. */
  function AdjustImport(fileLocation: string, current: string, subPath: string, alias: string): string
  {
    var absolute := PathResolve([fileLocation, current]);
    if StartsWith(absolute, subPath) then ReplaceFirst(absolute, subPath, alias) else current
  }

  /** An import resolving under `subPath` gets `alias` in place of that
      prefix; any other import is kept as written. */
  lemma AdjustImportCases(fileLocation: string, current: string, subPath: string, alias: string)
    ensures var absolute := PathResolve([fileLocation, current]);
            && (StartsWith(absolute, subPath) && Free(alias, '$') ==>
                  AdjustImport(fileLocation, current, subPath, alias) == alias + absolute[|subPath|..])
            && (!StartsWith(absolute, subPath) ==> AdjustImport(fileLocation, current, subPath, alias) == current)
  {
    var absolute := PathResolve([fileLocation, current]);
    if StartsWith(absolute, subPath) && Free(alias, '$') {
      ReplacePrefix(absolute, subPath, alias);
    }
  }

  /** A kept segment after other segments stays after their normalisation. */
  lemma NormalizeKeeps(segments: seq<string>, segment: string)
    requires Clean(segment)
    ensures Normalize(segments + [segment]) == Normalize(segments) + [segment]
  {
    assert (segments + [segment])[..|segments|] == segments;
  }

  /** `../<name>` seen from `/<dirs>/<last>` is `/<dirs>/<name>`. */
  lemma ResolveParent(dirs: seq<string>, last: string, name: string)
    requires forall k :: 0 <= k < |dirs| ==> Clean(dirs[k]) && Free(dirs[k], '/')
    requires Clean(last) && Free(last, '/') && Clean(name) && Free(name, '/')
    ensures PathResolve(["/" + Join(dirs + [last], "/"), "../" + name])
            == "/" + Join(dirs + [name], "/")
  {
    var location := "/" + Join(dirs + [last], "/");
    var current := "../" + name;
    var pieces := [""] + (dirs + [last]) + ["..", name];
    JoinedAfter(location, current);
    ParentPieces(dirs, last, name, pieces);
    ParentPiecesFree(dirs, last, name, pieces);
    SplitJoin(pieces, '/');
    NormalizeParent(dirs, last, name, pieces);
    assert StartsWith(current, ".");
  }

  lemma JoinedAfter(location: string, current: string)
    requires StartsWith(location, "/") && !StartsWith(current, "/")
    ensures Joined([location, current]) == location + "/" + current
  {
    assert [location, current][..1] == [location];
  }

  lemma ParentPieces(dirs: seq<string>, last: string, name: string, pieces: seq<string>)
    requires forall k :: 0 <= k < |dirs| ==> Free(dirs[k], '/')
    requires Free(last, '/') && Free(name, '/')
    requires pieces == [""] + (dirs + [last]) + ["..", name]
    ensures Join(pieces, "/") == "/" + Join(dirs + [last], "/") + "/" + ("../" + name)
  {
    JoinConcat([""] + (dirs + [last]), ["..", name], "/");
    JoinConcat([""], dirs + [last], "/");
    assert Join(["..", name], "/") == ".." + "/" + name by {
      assert ["..", name][1..] == [name];
    }
  }

  lemma ParentPiecesFree(dirs: seq<string>, last: string, name: string, pieces: seq<string>)
    requires forall k :: 0 <= k < |dirs| ==> Free(dirs[k], '/')
    requires Free(last, '/') && Free(name, '/')
    requires pieces == [""] + (dirs + [last]) + ["..", name]
    ensures forall k :: 0 <= k < |pieces| ==> Free(pieces[k], '/')
  {
  }

  lemma NormalizeParent(dirs: seq<string>, last: string, name: string, pieces: seq<string>)
    requires forall k :: 0 <= k < |dirs| ==> Clean(dirs[k])
    requires Clean(last) && Clean(name)
    requires pieces == [""] + (dirs + [last]) + ["..", name]
    ensures Normalize(pieces) == dirs + [name]
  {
    assert pieces == [""] + ((dirs + [last, ".."]) + [name]);
    NormalizePrefixDropped((dirs + [last, ".."]) + [name]);
    NormalizeKeeps(dirs + [last, ".."], name);
    NormalizeDots(dirs, last);
    NormalizeClean(dirs);
  }

  /** `../hi.ts` seen from `/hello/hi/foo/bar/baz` is `/hello/hi/foo/bar/hi.ts`,
      which under the alias for `/hello/hi` is `@ALIAS@/foo/bar/hi.ts`. */
  lemma AdjustImportExample(location: string, current: string, subPath: string, alias: string)
    requires location == "/hello/hi/foo/bar/baz" && current == "../hi.ts"
    requires subPath == "/hello/hi" && alias == "@ALIAS@"
    ensures AdjustImport(location, current, subPath, alias) == "@ALIAS@/foo/bar/hi.ts"
  {
    var tail := "/foo/bar/hi.ts";
    ExampleAbsolute(location, current, subPath, tail);
    var absolute := subPath + tail;
    assert StartsWith(absolute, subPath);
    ReplacePrefix(absolute, subPath, alias);
    assert absolute[|subPath|..] == tail;
  }

  lemma ExampleAbsolute(location: string, current: string, subPath: string, tail: string)
    requires location == "/hello/hi/foo/bar/baz" && current == "../hi.ts"
    requires subPath == "/hello/hi" && tail == "/foo/bar/hi.ts"
    ensures PathResolve([location, current]) == subPath + tail
  {
    var dirs := ["hello", "hi", "foo", "bar"];
    ExampleDirs(dirs);
    ExampleLocation(dirs);
    ExampleResolved(dirs);
    ResolveParent(dirs, "baz", "hi.ts");
    assert current == "../" + "hi.ts";
  }

  lemma JoinFour(parts: seq<string>, sep: string)
    requires |parts| == 4
    ensures Join(parts, sep) == parts[0] + sep + parts[1] + sep + parts[2] + sep + parts[3]
  {
    var p1, p2 := parts[1..], parts[2..];
    assert p1[1..] == p2 && p2[1..] == [parts[3]];
    assert Join(p2, sep) == parts[2] + sep + parts[3];
    assert Join(p1, sep) == parts[1] + sep + Join(p2, sep);
  }

  lemma ExampleDirs(dirs: seq<string>)
    requires dirs == ["hello", "hi", "foo", "bar"]
    ensures forall k :: 0 <= k < |dirs| ==> Clean(dirs[k]) && Free(dirs[k], '/')
  {
  }

  lemma ExampleLocation(dirs: seq<string>)
    requires dirs == ["hello", "hi", "foo", "bar"]
    ensures "/" + Join(dirs + ["baz"], "/") == "/hello/hi/foo/bar/baz"
  {
    JoinConcat(dirs, ["baz"], "/");
    JoinFour(dirs, "/");
  }

  lemma ExampleResolved(dirs: seq<string>)
    requires dirs == ["hello", "hi", "foo", "bar"]
    ensures "/" + Join(dirs + ["hi.ts"], "/") == "/hello/hi" + "/foo/bar/hi.ts"
  {
    JoinConcat(dirs, ["hi.ts"], "/");
    JoinFour(dirs, "/");
  }

  /** A leading empty segment is dropped. */
  lemma {:induction false} NormalizePrefixDropped(rest: seq<string>)
    ensures Normalize([""] + rest) == Normalize(rest)
    decreases |rest|
  {
    if rest != [] {
      assert ([""] + rest)[..|rest|] == [""] + rest[..|rest| - 1];
      NormalizePrefixDropped(rest[..|rest| - 1]);
    }
  }

  // ---- The import regular expression `/from\s+'(.+)'/` ----

  /** JavaScript's `\s`: white space and line terminators. */
  predicate IsSpace(c: char)
  {
    c == '\t' || c == '\n' || c == '\U{000B}' || c == '\U{000C}' || c == '\r' || c == ' '
    || c == '\U{00A0}' || c == '\U{1680}' || ('\U{2000}' <= c <= '\U{200A}')
    || c == '\U{2028}' || c == '\U{2029}' || c == '\U{202F}' || c == '\U{205F}'
    || c == '\U{3000}' || c == '\U{FEFF}'
  }

  /** The characters `.` does not match. */
  predicate IsLineTerminator(c: char)
  {
    c == '\n' || c == '\r' || c == '\U{2028}' || c == '\U{2029}'
  }

  /** The number of white-space characters starting at `i`. */
  function SpaceRun(s: string, i: nat): (n: nat)
    requires i <= |s|
    ensures i + n <= |s| && (forall k :: i <= k < i + n ==> IsSpace(s[k]))
    ensures i + n == |s| || !IsSpace(s[i + n])
    decreases |s| - i
  {
    if i < |s| && IsSpace(s[i]) then 1 + SpaceRun(s, i + 1) else 0
  }

  /** The first line terminator at or after `i`, or `|s|`. */
  function LineEnd(s: string, i: nat): (e: nat)
    requires i <= |s|
    ensures i <= e <= |s| && (e < |s| ==> IsLineTerminator(s[e]))
    ensures forall k :: i <= k < e ==> !IsLineTerminator(s[k])
    decreases |s| - i
  {
    if i == |s| || IsLineTerminator(s[i]) then i else LineEnd(s, i + 1)
  }

  /** The last `'` in `s[lo..hi]`. */
  function LastQuote(s: string, lo: nat, hi: nat): (q: Option<nat>)
    requires lo <= hi <= |s|
    ensures q.Some? ==> lo <= q.value < hi && s[q.value] == '\'' && forall k :: q.value < k < hi ==> s[k] != '\''
    ensures q.None? ==> forall k :: lo <= k < hi ==> s[k] != '\''
    decreases hi - lo
  {
    if hi == lo then None
    else if s[hi - 1] == '\'' then Some(hi - 1)
    else LastQuote(s, lo, hi - 1)
  }

  /** The capture of `/from\s+'(.+)'/` at start `i`: `from`, white space,
      a quote, then the longest run of at least one character that stays on
      the line and is followed by a quote. */
  function MatchAt(s: string, i: nat): (r: Option<string>)
    requires i <= |s|
    ensures r.Some? ==> |r.value| >= 1 && forall k :: 0 <= k < |r.value| ==> !IsLineTerminator(r.value[k])
  {
    if !OccursAt(s, "from", i) then None
    else
      var n := SpaceRun(s, i + 4);
      var p := i + 4 + n;
      if n == 0 || p == |s| || s[p] != '\'' then None
      else
        var e := LineEnd(s, p + 1);
        if e < p + 2 then None
        else match LastQuote(s, p + 2, e) {
          case None => None
          case Some(q) => Some(s[p + 1..q])
        }
  }

  /** The capture of the leftmost match starting at or after `i`. */
  function MatchFrom(s: string, i: nat): (r: Option<string>)
    requires i <= |s|
    ensures r.Some? ==> |r.value| >= 1 && forall k :: 0 <= k < |r.value| ==> !IsLineTerminator(r.value[k])
    decreases |s| - i
  {
    match MatchAt(s, i) {
      case Some(m) => Some(m)
      case None => if i == |s| then None else MatchFrom(s, i + 1)
    }
  }

  /** `imp.match(/from\s+'(.+)'/)?.[1]`. */
  function ImportPath(line: string): Option<string>
  {
    MatchFrom(line, 0)
  }

  /** A line written as `<clause>from '<path>'<rest>`, with no `f` in the
      clause and no quote in the path or the rest, imports `path`. */
  lemma ImportPathOfSimpleLine(clause: string, path: string, rest: string)
    requires Free(clause, 'f') && Free(path, '\'') && Free(rest, '\'') && |path| >= 1
    requires forall k :: 0 <= k < |path| ==> !IsLineTerminator(path[k])
    requires forall k :: 0 <= k < |rest| ==> !IsLineTerminator(rest[k])
    ensures ImportPath(clause + "from '" + path + "'" + rest) == Some(path)
  {
    var line := clause + "from '" + path + "'" + rest;
    var i := |clause|;
    var q := i + 6 + |path|;
    assert line[..i] == clause;
    NoMatchBeforeFrom(line, clause, 0);
    SimpleLineHead(clause, path, rest, line);
    SimpleLineTail(clause, path, rest, line);
    LineEndAfterQuote(line, clause, path, rest, i + 6);
    MatchAtIs(line, i, q);
  }

  /** The index facts of `<clause>from '<path>'` at the front of a line. */
  lemma SimpleLineHead(clause: string, path: string, rest: string, line: string)
    requires line == clause + "from '" + path + "'" + rest
    ensures OccursAt(line, "from", |clause|) && line[|clause| + 4] == ' ' && line[|clause| + 5] == '\''
    ensures line[|clause| + 6..|clause| + 6 + |path|] == path
  {
    assert line == clause + ("from '" + path) + ("'" + rest);
  }

  /** The index facts of the closing quote and what follows it. */
  lemma SimpleLineTail(clause: string, path: string, rest: string, line: string)
    requires line == clause + "from '" + path + "'" + rest && Free(rest, '\'')
    ensures var q := |clause| + 6 + |path|;
            q < |line| && line[q] == '\'' && forall k :: q < k < |line| ==> line[k] != '\''
  {
    var q := |clause| + 6 + |path|;
    assert line == (clause + "from '" + path) + ("'" + rest);
    assert forall k :: q < k < |line| ==> line[k] == rest[k - q - 1];
  }

  /** The capture at `i` when `from`, one space and a quote stand there and
      the line has its last quote at `q`. */
  lemma MatchAtIs(s: string, i: nat, q: nat)
    requires i + 7 <= q < |s| && OccursAt(s, "from", i) && s[i + 4] == ' ' && s[i + 5] == '\''
    requires s[q] == '\'' && forall k :: q < k < |s| ==> s[k] != '\''
    requires LineEnd(s, i + 6) == |s|
    ensures MatchAt(s, i) == Some(s[i + 6..q])
  {
    assert SpaceRun(s, i + 4) == 1 by {
      assert SpaceRun(s, i + 5) == 0;
    }
    LastQuoteIs(s, i + 7, |s|, q);
  }

  lemma NoMatchBeforeFrom(line: string, clause: string, i: nat)
    requires i <= |clause| <= |line| && line[..|clause|] == clause && Free(clause, 'f')
    ensures MatchFrom(line, i) == MatchFrom(line, |clause|)
    decreases |clause| - i
  {
    if i < |clause| {
      assert line[i] == clause[i];
      assert !OccursAt(line, "from", i);
      NoMatchBeforeFrom(line, clause, i + 1);
    }
  }

  lemma LineEndAfterQuote(line: string, clause: string, path: string, rest: string, i: nat)
    requires line == clause + "from '" + path + "'" + rest
    requires forall k :: 0 <= k < |path| ==> !IsLineTerminator(path[k])
    requires forall k :: 0 <= k < |rest| ==> !IsLineTerminator(rest[k])
    requires i == |clause| + 6
    ensures LineEnd(line, i) == |line|
  {
    forall k | i <= k < |line| ensures !IsLineTerminator(line[k]) {
      if k < i + |path| {
        assert line[k] == path[k - i];
      } else if k > i + |path| {
        assert line[k] == rest[k - i - |path| - 1];
      }
    }
    LineEndIsEnd(line, i);
  }

  lemma {:induction false} LineEndIsEnd(s: string, i: nat)
    requires i <= |s| && forall k :: i <= k < |s| ==> !IsLineTerminator(s[k])
    ensures LineEnd(s, i) == |s|
    decreases |s| - i
  {
    if i < |s| {
      LineEndIsEnd(s, i + 1);
    }
  }

  lemma {:induction false} LastQuoteIs(s: string, lo: nat, hi: nat, q: nat)
    requires lo <= q < hi <= |s| && s[q] == '\'' && forall k :: q < k < hi ==> s[k] != '\''
    ensures LastQuote(s, lo, hi) == Some(q)
    decreases hi - lo
  {
    if q < hi - 1 {
      LastQuoteIs(s, lo, hi - 1, q);
    }
  }

  // ---- Rewriting a file ----

  /** The error `parseFilesImports` meets on an `import` line without a
      `from '...'` part: the path is `undefined`, and `startsWith` on it throws. */
  const UndefinedPath := "TypeError: Cannot read properties of undefined (reading 'startsWith')"

  /** The callback of `lines.map(...)`. */
  function RewriteLine(line: string, fileLocation: string, subPath: string, alias: string): Result<string, string>
  {
    if !StartsWith(line, "import") then Ok(line)
    else match ImportPath(line) {
      case None => Err(UndefinedPath)
      case Some(m) => Ok(ReplaceFirst(line, m, AdjustImport(fileLocation, m, subPath, alias)))
    }
  }

  /** `lines.map(...)`: every line rewritten, failing at the first line that throws. */
  function RewriteLines(lines: seq<string>, fileLocation: string, subPath: string, alias: string): (r: Result<seq<string>, string>)
    ensures r.Ok? <==> forall k :: 0 <= k < |lines| ==> RewriteLine(lines[k], fileLocation, subPath, alias).Ok?
    ensures r.Ok? ==> |r.value| == |lines|
                      && forall k :: 0 <= k < |lines| ==> r.value[k] == RewriteLine(lines[k], fileLocation, subPath, alias).value
    decreases |lines|
  {
    if lines == [] then Ok([])
    else match RewriteLine(lines[0], fileLocation, subPath, alias) {
      case Err(e) => Err(e)
      case Ok(line) =>
        match RewriteLines(lines[1..], fileLocation, subPath, alias) {
          case Err(e) => Err(e)
          case Ok(rest) => Ok([line] + rest)
        }
    }
  }

  /** `parseFilesImports(file, fileLocation, subPath, alias)`: it fails
      exactly when some `import` line has no `from '...'` part. */
  function ParseFilesImports(file: string, fileLocation: string, subPath: string, alias: string): (r: Result<string, string>)
    ensures var lines := Split(file, '\n');
            r.Err? <==> exists k :: 0 <= k < |lines| && StartsWith(lines[k], "import") && ImportPath(lines[k]).None?
  {
    var lines := Split(file, '\n');
    match RewriteLines(lines, fileLocation, subPath, alias) {
      case Err(e) => Err(e)
      case Ok(out) => Ok(Join(out, "\n"))
    }
  }

  /** A file without `import` lines comes back unchanged. */
  lemma ParseWithoutImports(file: string, fileLocation: string, subPath: string, alias: string)
    requires forall k :: 0 <= k < |Split(file, '\n')| ==> !StartsWith(Split(file, '\n')[k], "import")
    ensures ParseFilesImports(file, fileLocation, subPath, alias) == Ok(file)
  {
    var lines := Split(file, '\n');
    var r := RewriteLines(lines, fileLocation, subPath, alias);
    assert r.value == lines;
    JoinSplit(file, '\n');
  }

  /** When the location, sub-path and alias are one-line strings, the
      rewritten file has as many lines as the original, and every line not
      starting with `import` is where it was, unchanged. */
  lemma ParseKeepsLines(file: string, fileLocation: string, subPath: string, alias: string)
    requires Free(fileLocation, '\n') && Free(subPath, '\n') && Free(alias, '\n')
    requires ParseFilesImports(file, fileLocation, subPath, alias).Ok?
    ensures var lines := Split(file, '\n');
            var out := Split(ParseFilesImports(file, fileLocation, subPath, alias).value, '\n');
            |out| == |lines| && forall k :: 0 <= k < |lines| && !StartsWith(lines[k], "import") ==> out[k] == lines[k]
  {
    var lines := Split(file, '\n');
    var out := RewriteLines(lines, fileLocation, subPath, alias).value;
    forall k | 0 <= k < |out| ensures Free(out[k], '\n') {
      RewriteLineKeepsFree(lines[k], fileLocation, subPath, alias);
    }
    SplitJoin(out, '\n');
  }

  lemma RewriteLineKeepsFree(line: string, fileLocation: string, subPath: string, alias: string)
    requires Free(line, '\n') && Free(fileLocation, '\n') && Free(subPath, '\n') && Free(alias, '\n')
    requires RewriteLine(line, fileLocation, subPath, alias).Ok?
    ensures Free(RewriteLine(line, fileLocation, subPath, alias).value, '\n')
  {
    if StartsWith(line, "import") {
      var m := ImportPath(line).value;
      AdjustImportKeepsFree(fileLocation, m, subPath, alias);
      ReplaceFirstKeepsFree(line, m, AdjustImport(fileLocation, m, subPath, alias), '\n');
    }
  }

  lemma AdjustImportKeepsFree(fileLocation: string, current: string, subPath: string, alias: string)
    requires Free(fileLocation, '\n') && Free(current, '\n') && Free(subPath, '\n') && Free(alias, '\n')
    ensures Free(AdjustImport(fileLocation, current, subPath, alias), '\n')
  {
    var absolute := PathResolve([fileLocation, current]);
    ResolveKeepsFree([fileLocation, current], '\n');
    ReplaceFirstKeepsFree(absolute, subPath, alias, '\n');
  }

  /** Resolution introduces no character other than `/`. */
  lemma ResolveKeepsFree(paths: seq<string>, d: char)
    requires |paths| >= 1 && d != '/' && forall k :: 0 <= k < |paths| ==> Free(paths[k], d)
    ensures Free(PathResolve(paths), d)
  {
    if StartsWith(paths[|paths| - 1], ".") {
      JoinedKeepsFree(paths, d);
      var pieces := Split(Joined(paths), '/');
      SplitKeepsFree(Joined(paths), '/', d);
      var segments := Normalize(pieces);
      assert forall k :: 0 <= k < |segments| ==> Free(segments[k], d);
      JoinFree(segments, "/", d);
      FreeConcat("/", Join(segments, "/"), d);
    }
  }

  lemma {:induction false} JoinedKeepsFree(paths: seq<string>, d: char)
    requires d != '/' && forall k :: 0 <= k < |paths| ==> Free(paths[k], d)
    ensures Free(Joined(paths), d)
    decreases |paths|
  {
    if paths != [] {
      var init := paths[..|paths| - 1];
      JoinedKeepsFree(init, d);
      FreeConcat(Joined(init), "/", d);
      FreeConcat(Joined(init) + "/", paths[|paths| - 1], d);
    }
  }
}
