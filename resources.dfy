/**
 * Resource paths and the line-level rules of the OFF and NOFF readers
 * (source/intern/resources.cpp).
 *
 * A file is its text (`TextFile`: its lines and whether the last one ends in
 * a line break), opened or not. `Getline` models `std::getline` on that text,
 * and `Line` gives what its `k`-th call leaves in `line` (`GetlineReadsLine`),
 * past the end of the file included. What `sscanf` and `std::stoi` convert
 * from a line are parameters, since their text grammar is a library's; a
 * count line `std::stoi` cannot convert makes the readers throw. The
 * `OffFileData`/`NOffFileData` records are given the fields the readers fill
 * (`positions`, `indices`, `normals`).
 */
module Resources {
  /** A `glm::vec3`; its coordinates are reals here, or extended reals where they may be infinite. */
  datatype Vec3<T> = Vec3(x: T, y: T, z: T)

  type Position = Vec3<real>

  /** `unsigned int` is 32 bits wide. */
  const UintRange: int := 0x1_0000_0000

  /** The conversion of an `int` to `unsigned int`: two's-complement wrap-around. */
  function ToUnsigned(v: int): (u: nat)
    ensures u < UintRange
    ensures 0 <= v < UintRange ==> u == v
    ensures -UintRange <= v < 0 ==> u == v + UintRange
  {
    v % UintRange
  }

  // ---------------------------------------------------------------------------
  // Resource paths
  // ---------------------------------------------------------------------------

  predicate IsSeparator(c: char) {
    c == '/' || c == '\\'
  }

  /** `find_last_of("/\\")`: the last position holding a separator, or -1 (`npos`) when there is none. */
  function LastSeparator(s: string): (r: int)
    ensures -1 <= r < |s|
    ensures r >= 0 ==> IsSeparator(s[r])
    ensures forall i :: r < i < |s| ==> !IsSeparator(s[i])
  {
    if |s| == 0 then -1
    else if IsSeparator(s[|s| - 1]) then |s| - 1
    else LastSeparator(s[..|s| - 1])
  }

  /** The `Resources` namespace and its static `subPath`. */
  class ResourceDirectory {
    var subPath: string

    /** The static initializer: `subPath` starts empty. */
    constructor ()
      ensures subPath == ""
    {
      subPath := "";
    }

    /**
     * `init(argc, argv)`: the directory part of `argv[0]` (everything up to
     * and including its last `/` or `\`, or nothing when it has none),
     * followed by `resources/`.
     */
    method Init(arg0: string)
      modifies this
      ensures (forall i :: 0 <= i < |arg0| ==> !IsSeparator(arg0[i])) ==> subPath == "resources/"
      ensures (exists i :: 0 <= i < |arg0| && IsSeparator(arg0[i])) ==>
                exists k :: 0 <= k < |arg0| && IsSeparator(arg0[k])
                  && (forall i :: k < i < |arg0| ==> !IsSeparator(arg0[i]))
                  && subPath == arg0[..k + 1] + "resources/"
    {
      var found := LastSeparator(arg0);
      subPath := (if found == -1 then "" else arg0[..found + 1]) + "resources/";
    }

    /** `getPath(path)`: the path inside the resource directory. */
    function GetPath(path: string): (r: string)
      reads this
      ensures |r| == |subPath| + |path|
      ensures r[..|subPath|] == subPath && r[|subPath|..] == path
    {
      subPath + path
    }
  }

  /** After `init`, every resource path starts with `resources/` right after the directory part of `argv[0]`. */
  lemma PathInsideResources(d: ResourceDirectory, arg0: string, path: string)
    requires d.subPath == (if LastSeparator(arg0) == -1 then "" else arg0[..LastSeparator(arg0) + 1]) + "resources/"
    ensures var r := d.GetPath(path);
            var k := LastSeparator(arg0) + 1;
            |r| == k + 10 + |path| && r[..k] == arg0[..k] && r[k..k + 10] == "resources/" && r[k + 10..] == path
  {
    var r := d.GetPath(path);
    var k := LastSeparator(arg0) + 1;
    assert d.subPath[..k] == arg0[..k];
    assert r[..k] == d.subPath[..k];
    assert r[k..k + 10] == d.subPath[k..];
  }

  // ---------------------------------------------------------------------------
  // OFF data and its line readers
  // ---------------------------------------------------------------------------

  /** A `std::vector<unsigned int>` of triangle indices, appended to in place. */
  class IndexVector {
    var elements: seq<nat>

    constructor ()
      ensures elements == []
    {
      elements := [];
    }
  }

  /** `OffFileData`: the positions and triangle indices of an OFF file. */
  class OffFileData {
    var positions: seq<Position>
    const indices: IndexVector

    constructor ()
      ensures positions == [] && fresh(indices) && indices.elements == []
    {
      positions := [];
      indices := new IndexVector();
    }
  }

  /** `NOffFileData`: an OFF file with one normal per position. */
  class NOffFileData {
    var positions: seq<Position>
    var normals: seq<Position>
    const indices: IndexVector

    constructor ()
      ensures positions == [] && normals == [] && fresh(indices) && indices.elements == []
    {
      positions, normals := [], [];
      indices := new IndexVector();
    }
  }

  /** The three indices a face line `3 v1 v2 v3` contributes, as `unsigned int`s. */
  function FaceIndices(parsed: seq<int>): (r: seq<nat>)
    requires |parsed| == 4
    ensures |r| == 3 && forall j :: 0 <= j < 3 ==> r[j] == ToUnsigned(parsed[j + 1])
  {
    [ToUnsigned(parsed[1]), ToUnsigned(parsed[2]), ToUnsigned(parsed[3])]
  }

  /** A face line `loadIndices` accepts: four integers convert and the first, the vertex count, is 3. */
  predicate FaceLine(parsed: seq<int>) {
    |parsed| == 4 && parsed[0] == 3
  }

  /**
   * `loadIndices(line, indices)`, given the integers `sscanf("%d %d %d %d")`
   * converted from the line. Anything but four integers, or a vertex count
   * other than 3, is refused and leaves `indices` as it was.
   */
  method LoadIndices(parsed: seq<int>, indices: IndexVector) returns (ok: bool)
    modifies indices
    ensures ok <==> FaceLine(parsed)
    ensures ok ==> indices.elements == old(indices.elements) + FaceIndices(parsed)
    ensures !ok ==> indices.elements == old(indices.elements)
  {
    if |parsed| != 4 {
      return false;
    }
    var amount, v1, v2, v3 := parsed[0], parsed[1], parsed[2], parsed[3];
    if amount != 3 {
      return false;
    }
    indices.elements := indices.elements + [ToUnsigned(v1)];
    indices.elements := indices.elements + [ToUnsigned(v2)];
    indices.elements := indices.elements + [ToUnsigned(v3)];
    return true;
  }

  /** `loadPosition(line, data)`, given the floats `sscanf("%f %f %f")` converted: appends only when there are three. */
  method LoadPosition(parsed: seq<real>, data: OffFileData) returns (ok: bool)
    modifies data
    ensures ok <==> |parsed| == 3
    ensures ok ==> data.positions == old(data.positions) + [Vec3(parsed[0], parsed[1], parsed[2])]
    ensures !ok ==> data.positions == old(data.positions)
  {
    if |parsed| != 3 {
      return false;
    }
    data.positions := data.positions + [Vec3(parsed[0], parsed[1], parsed[2])];
    return true;
  }

  /**
   * `loadPositionAndNormal(line, data)`, given the floats of
   * `sscanf("%f %f %f %f %f %f")`: with six of them it appends a position
   * and a normal, otherwise neither.
   */
  method LoadPositionAndNormal(parsed: seq<real>, data: NOffFileData) returns (ok: bool)
    modifies data
    ensures ok <==> |parsed| == 6
    ensures ok ==> data.positions == old(data.positions) + [Vec3(parsed[0], parsed[1], parsed[2])]
    ensures ok ==> data.normals == old(data.normals) + [Vec3(parsed[3], parsed[4], parsed[5])]
    ensures !ok ==> data.positions == old(data.positions) && data.normals == old(data.normals)
  {
    if |parsed| != 6 {
      return false;
    }
    data.positions := data.positions + [Vec3(parsed[0], parsed[1], parsed[2])];
    data.normals := data.normals + [Vec3(parsed[3], parsed[4], parsed[5])];
    return true;
  }

  // ---------------------------------------------------------------------------
  // Whole files
  // ---------------------------------------------------------------------------

  /**
   * A text file: its lines without their line breaks, and whether a line
   * break follows the last of them.
   */
  datatype TextFile = TextFile(lines: seq<string>, endsWithNewline: bool)

  /**
   * What the `k`-th `getline(fs, line)` call (from 0) leaves in `line`: the
   * `k`-th line while there is one. Past the end every call fails; one that
   * starts right after a final line break clears `line`, while one that
   * starts with the stream already at its end leaves `line` as it was. So a
   * file without a final line break yields its last line again and again.
   */
  function Line(file: TextFile, k: nat): string {
    if k < |file.lines| then file.lines[k]
    else if file.endsWithNewline || |file.lines| == 0 then ""
    else file.lines[|file.lines| - 1]
  }

  // ---------------------------------------------------------------------------
  // std::getline on the text of a file
  // ---------------------------------------------------------------------------

  predicate NoLineBreak(s: string) {
    forall i :: 0 <= i < |s| ==> s[i] != '\n'
  }

  /** The lines joined by line breaks. */
  function Join(lines: seq<string>): string {
    if |lines| == 0 then ""
    else if |lines| == 1 then lines[0]
    else lines[0] + "\n" + Join(lines[1..])
  }

  /** The characters of the file. */
  function Text(file: TextFile): string {
    Join(file.lines) + (if file.endsWithNewline then "\n" else "")
  }

  /** The text up to the first line break, what follows it, and whether there was one. */
  datatype Split = Split(line: string, rest: string, found: bool)

  function SplitLine(s: string): (r: Split)
    ensures NoLineBreak(r.line)
  {
    if |s| == 0 then Split("", "", false)
    else if s[0] == '\n' then Split("", s[1..], true)
    else
      var r := SplitLine(s[1..]);
      Split([s[0]] + r.line, r.rest, r.found)
  }

  /** An input stream: the characters not yet read, and whether it is no longer `good()`. */
  datatype Stream = Stream(rest: string, ended: bool)

  /** A stream and the `line` variable after a `getline` call. */
  datatype Read = Read(stream: Stream, line: string)

  /**
   * `std::getline(stream, line)`: on a stream that is not `good()` the
   * sentry fails and `line` keeps its value; otherwise `line` is cleared and
   * receives the characters up to the next line break, which is consumed.
   * Reaching the end of the text instead sets `eofbit` (and `failbit` when
   * nothing was read), so the stream is no longer `good()`.
   */
  function Getline(st: Stream, line: string): (r: Read)
    ensures st.ended ==> r == Read(st, line)
  {
    if st.ended then Read(st, line)
    else
      var sp := SplitLine(st.rest);
      if sp.found then Read(Stream(sp.rest, false), sp.line) else Read(Stream("", true), sp.line)
  }

  /** `n` calls of `getline` in a row. */
  function Getlines(st: Stream, line: string, n: nat): Read
    decreases n
  {
    if n == 0 then Read(st, line)
    else
      var r := Getline(st, line);
      Getlines(r.stream, r.line, n - 1)
  }

  /** A line without a line break, then a line break and more text, splits after that line. */
  lemma {:induction false} SplitAfterLine(l: string, t: string)
    requires NoLineBreak(l)
    ensures SplitLine(l + "\n" + t) == Split(l, t, true)
    decreases |l|
  {
    if |l| > 0 {
      assert (l + "\n" + t)[1..] == l[1..] + "\n" + t;
      SplitAfterLine(l[1..], t);
      assert [l[0]] + l[1..] == l;
    } else {
      assert l + "\n" + t == "\n" + t;
      assert ("\n" + t)[1..] == t;
    }
  }

  /** A last line without a line break is the whole remaining text. */
  lemma {:induction false} SplitLastLine(l: string)
    requires NoLineBreak(l)
    ensures SplitLine(l) == Split(l, "", false)
    decreases |l|
  {
    if |l| > 0 {
      SplitLastLine(l[1..]);
      assert [l[0]] + l[1..] == l;
    }
  }

  /** Once a stream is no longer `good()`, no `getline` changes `line`. */
  lemma {:induction false} EndedKeepsLine(st: Stream, line: string, n: nat)
    requires st.ended
    ensures Getlines(st, line, n).line == line
    decreases n
  {
    if n > 0 {
      EndedKeepsLine(st, line, n - 1);
    }
  }

  /** After a final line break, the next `getline` clears `line` and ends the stream. */
  lemma AtEndClears(line: string, n: nat)
    requires n > 0
    ensures Getlines(Stream("", false), line, n).line == ""
  {
    assert Getline(Stream("", false), line) == Read(Stream("", true), "");
    EndedKeepsLine(Stream("", true), "", n - 1);
  }

  /** The text of a file whose first line is followed by more lines. */
  lemma TextCons(file: TextFile)
    requires |file.lines| >= 2
    ensures Text(file) == file.lines[0] + "\n" + Text(TextFile(file.lines[1..], file.endsWithNewline))
  {
  }

  /**
   * `Line` is what `getline` leaves in `line`: the `k + 1`-th call on the
   * text of a file, whatever `line` held before, yields `Line(file, k)`.
   */
  lemma {:induction false} GetlineReadsLine(file: TextFile, line: string, k: nat)
    requires forall i :: 0 <= i < |file.lines| ==> NoLineBreak(file.lines[i])
    ensures Getlines(Stream(Text(file), false), line, k + 1).line == Line(file, k)
    decreases |file.lines|
  {
    var lines := file.lines;
    if |lines| == 0 {
      if file.endsWithNewline {
        SplitAfterLine("", "");
        assert Text(file) == "" + "\n" + "";
        if k > 0 {
          AtEndClears("", k);
        }
      } else {
        assert Getline(Stream("", false), line) == Read(Stream("", true), "");
        EndedKeepsLine(Stream("", true), "", k);
      }
    } else if |lines| == 1 {
      if file.endsWithNewline {
        SplitAfterLine(lines[0], "");
        assert Text(file) == lines[0] + "\n" + "";
        if k > 0 {
          AtEndClears(lines[0], k);
        }
      } else {
        SplitLastLine(lines[0]);
        assert Text(file) == lines[0];
        EndedKeepsLine(Stream("", true), lines[0], k);
      }
    } else {
      var tail := TextFile(lines[1..], file.endsWithNewline);
      TextCons(file);
      SplitAfterLine(lines[0], Text(tail));
      if k > 0 {
        GetlineReadsLine(tail, lines[0], k - 1);
      }
    }
  }

  /**
   * `OFF`, `2 0`, `1 2 3` without a final line break: the second vertex
   * line read is the last line again.
   */
  lemma RereadsLastLine(scan: string -> seq<real>)
    requires scan("1 2 3") == [1.0, 2.0, 3.0]
    ensures PositionsRead(TextFile(["OFF", "2 0", "1 2 3"], false), 2, 2, scan) == [Vec3(1.0, 2.0, 3.0), Vec3(1.0, 2.0, 3.0)]
  {
    var file := TextFile(["OFF", "2 0", "1 2 3"], false);
    assert Line(file, 2) == "1 2 3" && Line(file, 3) == "1 2 3";
  }

  /** The number of iterations of `for (int i = 0; i < count; i++)`. */
  function Iterations(count: int): nat {
    if count < 0 then 0 else count
  }

  /** The positions read from `count` lines starting at line `start`, all of which convert to three floats. */
  ghost function PositionsRead(file: TextFile, start: nat, count: nat, scan: string -> seq<real>): seq<Position>
    requires forall k :: start <= k < start + count ==> |scan(Line(file, k))| == 3
  {
    if count == 0 then []
    else
      var p := scan(Line(file, start + count - 1));
      PositionsRead(file, start, count - 1, scan) + [Vec3(p[0], p[1], p[2])]
  }

  /** The normals read from `count` lines starting at line `start`, all of which convert to six floats. */
  ghost function NormalsRead(file: TextFile, start: nat, count: nat, scan: string -> seq<real>): seq<Position>
    requires forall k :: start <= k < start + count ==> |scan(Line(file, k))| == 6
  {
    if count == 0 then []
    else
      var p := scan(Line(file, start + count - 1));
      NormalsRead(file, start, count - 1, scan) + [Vec3(p[3], p[4], p[5])]
  }

  /** The positions of six-float lines: their first three floats. */
  ghost function PositionsReadOf6(file: TextFile, start: nat, count: nat, scan: string -> seq<real>): seq<Position>
    requires forall k :: start <= k < start + count ==> |scan(Line(file, k))| == 6
  {
    if count == 0 then []
    else
      var p := scan(Line(file, start + count - 1));
      PositionsReadOf6(file, start, count - 1, scan) + [Vec3(p[0], p[1], p[2])]
  }

  /** The indices read from `count` face lines starting at line `start`. */
  ghost function IndicesRead(file: TextFile, start: nat, count: nat, scan: string -> seq<int>): seq<nat>
    requires forall k :: start <= k < start + count ==> FaceLine(scan(Line(file, k)))
  {
    if count == 0 then []
    else
      var p := scan(Line(file, start + count - 1));
      assert FaceLine(p);
      IndicesRead(file, start, count - 1, scan) + FaceIndices(p)
  }

  /** Three indices per face line. */
  lemma {:induction false} IndicesReadLength(file: TextFile, start: nat, count: nat, scan: string -> seq<int>)
    requires forall k :: start <= k < start + count ==> FaceLine(scan(Line(file, k)))
    ensures |IndicesRead(file, start, count, scan)| == 3 * count
  {
    if count > 0 {
      IndicesReadLength(file, start, count - 1, scan);
    }
  }

  /** One position per vertex line. */
  lemma {:induction false} PositionsReadLength(file: TextFile, start: nat, count: nat, scan: string -> seq<real>)
    requires forall k :: start <= k < start + count ==> |scan(Line(file, k))| == 3
    ensures |PositionsRead(file, start, count, scan)| == count
  {
    if count > 0 {
      PositionsReadLength(file, start, count - 1, scan);
    }
  }

  /** One normal per position. */
  lemma {:induction false} NormalsReadLength(file: TextFile, start: nat, count: nat, scan: string -> seq<real>)
    requires forall k :: start <= k < start + count ==> |scan(Line(file, k))| == 6
    ensures |NormalsRead(file, start, count, scan)| == count
    ensures |PositionsReadOf6(file, start, count, scan)| == count
  {
    if count > 0 {
      NormalsReadLength(file, start, count - 1, scan);
    }
  }

  /** A loop of `loadPosition` over `count` lines from `start`: succeeds iff every line holds three floats. */
  method LoadPositions(file: TextFile, start: nat, count: int, scan: string -> seq<real>, data: OffFileData)
    returns (ok: bool)
    modifies data
    ensures ok <==> forall k :: start <= k < start + Iterations(count) ==> |scan(Line(file, k))| == 3
    ensures ok ==> data.positions == old(data.positions) + PositionsRead(file, start, Iterations(count), scan)
  {
    var i := 0;
    while i < count
      invariant 0 <= i <= Iterations(count)
      invariant forall k :: start <= k < start + i ==> |scan(Line(file, k))| == 3
      invariant data.positions == old(data.positions) + PositionsRead(file, start, i, scan)
    {
      ok := LoadPosition(scan(Line(file, start + i)), data);
      if !ok {
        return;
      }
      i := i + 1;
    }
    return true;
  }

  /** A loop of `loadPositionAndNormal` over `count` lines from `start`: succeeds iff every line holds six floats. */
  method LoadPositionsAndNormals(file: TextFile, start: nat, count: int, scan: string -> seq<real>, data: NOffFileData)
    returns (ok: bool)
    modifies data
    ensures ok <==> forall k :: start <= k < start + Iterations(count) ==> |scan(Line(file, k))| == 6
    ensures ok ==> data.positions == old(data.positions) + PositionsReadOf6(file, start, Iterations(count), scan)
    ensures ok ==> data.normals == old(data.normals) + NormalsRead(file, start, Iterations(count), scan)
  {
    var i := 0;
    while i < count
      invariant 0 <= i <= Iterations(count)
      invariant forall k :: start <= k < start + i ==> |scan(Line(file, k))| == 6
      invariant data.positions == old(data.positions) + PositionsReadOf6(file, start, i, scan)
      invariant data.normals == old(data.normals) + NormalsRead(file, start, i, scan)
    {
      ok := LoadPositionAndNormal(scan(Line(file, start + i)), data);
      if !ok {
        return;
      }
      i := i + 1;
    }
    return true;
  }

  /** A loop of `loadIndices` over `count` lines from `start`: succeeds iff every line is a triangle face. */
  method LoadFaces(file: TextFile, start: nat, count: int, scan: string -> seq<int>, indices: IndexVector)
    returns (ok: bool)
    modifies indices
    ensures ok <==> forall k :: start <= k < start + Iterations(count) ==> FaceLine(scan(Line(file, k)))
    ensures ok ==> indices.elements == old(indices.elements) + IndicesRead(file, start, Iterations(count), scan)
  {
    var i := 0;
    while i < count
      invariant 0 <= i <= Iterations(count)
      invariant forall k :: start <= k < start + i ==> FaceLine(scan(Line(file, k)))
      invariant indices.elements == old(indices.elements) + IndicesRead(file, start, i, scan)
    {
      ok := LoadIndices(scan(Line(file, start + i)), indices);
      if !ok {
        return;
      }
      i := i + 1;
    }
    return true;
  }

  /**
   * The two `std::stoi` conversions of the count line: the vertex and face
   * counts, or the exception either of them throws on a line it cannot
   * convert.
   */
  datatype Counts = Counts(vertexCount: int, indexCount: int) | Throws

  /**
   * The vertex lines each hold `floats` floats and the face lines after them
   * are triangle faces, for the counts `c`.
   */
  ghost predicate BodyAccepted(file: TextFile, c: Counts, floats: nat,
                               scanVertex: string -> seq<real>, scanFace: string -> seq<int>)
    requires c.Counts?
  {
    (forall k :: 2 <= k < 2 + Iterations(c.vertexCount) ==> |scanVertex(Line(file, k))| == floats)
    && (forall k :: 2 + Iterations(c.vertexCount) <= k < 2 + Iterations(c.vertexCount) + Iterations(c.indexCount) ==>
          FaceLine(scanFace(Line(file, k))))
  }

  /**
   * What `loadOffResource` accepts: the file opens, its first line is
   * exactly `OFF`, the count line converts, the `vertexCount` lines after it
   * each hold three floats and the `indexCount` lines after those are
   * triangle faces.
   */
  ghost predicate OffAccepted(good: bool, file: TextFile, scanCounts: string -> Counts,
                              scanPosition: string -> seq<real>, scanFace: string -> seq<int>)
  {
    good && Line(file, 0) == "OFF" && scanCounts(Line(file, 1)).Counts?
    && BodyAccepted(file, scanCounts(Line(file, 1)), 3, scanPosition, scanFace)
  }

  /**
   * `loadOffResource(path)` on the file `path` names, `good` telling whether
   * it opened. `scanCounts` is what `std::stoi` makes of the count line.
   * The call throws (`thrown`) when the header is `OFF` and the count line
   * does not convert; otherwise the result is null unless the file is
   * accepted, and then it holds one position per vertex line and three
   * indices per face line.
   */
  method LoadOffResource(good: bool, file: TextFile, scanCounts: string -> Counts,
                         scanPosition: string -> seq<real>, scanFace: string -> seq<int>)
    returns (data: OffFileData?, thrown: bool)
    ensures thrown <==> good && Line(file, 0) == "OFF" && scanCounts(Line(file, 1)).Throws?
    ensures thrown ==> data == null
    ensures data != null <==> OffAccepted(good, file, scanCounts, scanPosition, scanFace)
    ensures data != null ==> fresh(data) && fresh(data.indices)
    ensures data != null ==>
              var c := scanCounts(Line(file, 1));
              c.Counts? &&
              data.positions == PositionsRead(file, 2, Iterations(c.vertexCount), scanPosition) &&
              data.indices.elements == IndicesRead(file, 2 + Iterations(c.vertexCount), Iterations(c.indexCount), scanFace)
  {
    data, thrown := null, false;
    if !good {
      return;
    }
    if Line(file, 0) != "OFF" {
      return;
    }
    var counts := scanCounts(Line(file, 1));
    if counts.Throws? {
      thrown := true;
      return;
    }
    var d := new OffFileData();
    var ok := LoadPositions(file, 2, counts.vertexCount, scanPosition, d);
    if !ok {
      return;
    }
    ok := LoadFaces(file, 2 + Iterations(counts.vertexCount), counts.indexCount, scanFace, d.indices);
    if !ok {
      return;
    }
    data := d;
  }

  /** What `loadNOffResource` accepts: as for OFF, with the header `NOFF` and six floats per vertex line. */
  ghost predicate NOffAccepted(good: bool, file: TextFile, scanCounts: string -> Counts,
                               scanVertex: string -> seq<real>, scanFace: string -> seq<int>)
  {
    good && Line(file, 0) == "NOFF" && scanCounts(Line(file, 1)).Counts?
    && BodyAccepted(file, scanCounts(Line(file, 1)), 6, scanVertex, scanFace)
  }

  /** `loadNOffResource(path)`: as `loadOffResource`, reading a position and a normal from each vertex line. */
  method LoadNOffResource(good: bool, file: TextFile, scanCounts: string -> Counts,
                          scanVertex: string -> seq<real>, scanFace: string -> seq<int>)
    returns (data: NOffFileData?, thrown: bool)
    ensures thrown <==> good && Line(file, 0) == "NOFF" && scanCounts(Line(file, 1)).Throws?
    ensures thrown ==> data == null
    ensures data != null <==> NOffAccepted(good, file, scanCounts, scanVertex, scanFace)
    ensures data != null ==> fresh(data) && fresh(data.indices)
    ensures data != null ==>
              var c := scanCounts(Line(file, 1));
              c.Counts? &&
              data.positions == PositionsReadOf6(file, 2, Iterations(c.vertexCount), scanVertex) &&
              data.normals == NormalsRead(file, 2, Iterations(c.vertexCount), scanVertex) &&
              data.indices.elements == IndicesRead(file, 2 + Iterations(c.vertexCount), Iterations(c.indexCount), scanFace)
  {
    data, thrown := null, false;
    if !good {
      return;
    }
    if Line(file, 0) != "NOFF" {
      return;
    }
    var counts := scanCounts(Line(file, 1));
    if counts.Throws? {
      thrown := true;
      return;
    }
    var d := new NOffFileData();
    var ok := LoadPositionsAndNormals(file, 2, counts.vertexCount, scanVertex, d);
    if !ok {
      return;
    }
    ok := LoadFaces(file, 2 + Iterations(counts.vertexCount), counts.indexCount, scanFace, d.indices);
    if !ok {
      return;
    }
    data := d;
  }

  /** An accepted OFF file holds one position per vertex line and three indices per face line. */
  lemma OffSizes(good: bool, file: TextFile, scanCounts: string -> Counts,
                 scanPosition: string -> seq<real>, scanFace: string -> seq<int>)
    requires OffAccepted(good, file, scanCounts, scanPosition, scanFace)
    ensures var c := scanCounts(Line(file, 1));
            |PositionsRead(file, 2, Iterations(c.vertexCount), scanPosition)| == Iterations(c.vertexCount) &&
            |IndicesRead(file, 2 + Iterations(c.vertexCount), Iterations(c.indexCount), scanFace)| == 3 * Iterations(c.indexCount)
  {
    var c := scanCounts(Line(file, 1));
    PositionsReadLength(file, 2, Iterations(c.vertexCount), scanPosition);
    IndicesReadLength(file, 2 + Iterations(c.vertexCount), Iterations(c.indexCount), scanFace);
  }

  /** An accepted NOFF file holds as many normals as positions. */
  lemma NOffSizes(good: bool, file: TextFile, scanCounts: string -> Counts,
                  scanVertex: string -> seq<real>, scanFace: string -> seq<int>)
    requires NOffAccepted(good, file, scanCounts, scanVertex, scanFace)
    ensures var c := scanCounts(Line(file, 1));
            |PositionsReadOf6(file, 2, Iterations(c.vertexCount), scanVertex)| == Iterations(c.vertexCount) &&
            |NormalsRead(file, 2, Iterations(c.vertexCount), scanVertex)| == Iterations(c.vertexCount) &&
            |IndicesRead(file, 2 + Iterations(c.vertexCount), Iterations(c.indexCount), scanFace)| == 3 * Iterations(c.indexCount)
  {
    var c := scanCounts(Line(file, 1));
    NormalsReadLength(file, 2, Iterations(c.vertexCount), scanVertex);
    IndicesReadLength(file, 2 + Iterations(c.vertexCount), Iterations(c.indexCount), scanFace);
  }
}
