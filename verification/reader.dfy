/** The line logic of `TSP.readFromFile` (src/de/metal_land/tsp/TSP.java): a TSPLIB 95
    coordinate file is read line by line; in the specification part only the NAME keyword is
    kept, and every line after NODE_COORD_SECTION becomes a city, until a line EOF. The
    Scanner is replaced by the sequence of lines it yields; `String.split` and
    `Integer.parseInt` are written out for the inputs they meet here. */
module TspReader {

  import opened Nodes
  import opened Wrappers
  import Util

  const CoordSection: string := "NODE_COORD_SECTION"
  const EndOfFile: string := "EOF"
  const KeySeparator: string := " : "
  const FieldSeparator: string := " "

  /** The pieces between the occurrences of `sep`, found from left to right without overlap,
      as the regular-expression matcher finds a literal separator. */
  function Pieces(s: string, sep: string): (r: seq<string>)
    requires sep != []
    ensures |r| >= 1
    decreases |s|
  {
    if |s| < |sep| then [s]
    else if s[..|sep|] == sep then [""] + Pieces(s[|sep|..], sep)
    else
      var p := Pieces(s[1..], sep);
      [[s[0]] + p[0]] + p[1..]
  }

  /** The pieces joined back with `sep` between neighbours. */
  function Join(p: seq<string>, sep: string): string
    requires |p| >= 1
    decreases |p|
  {
    if |p| == 1 then p[0] else p[0] + sep + Join(p[1..], sep)
  }

  /** Prefixing the first piece prefixes the joined string. */
  lemma JoinPrefixFirst(c: string, p: seq<string>, sep: string)
    requires |p| >= 1
    ensures Join([c + p[0]] + p[1..], sep) == c + Join(p, sep)
  {
    var q := [c + p[0]] + p[1..];
    assert q[1..] == p[1..];
  }

  /** Splitting at every occurrence of `sep` loses nothing: joining the pieces with `sep`
      gives the string back. */
  lemma {:induction false} PiecesJoin(s: string, sep: string)
    requires sep != []
    ensures Join(Pieces(s, sep), sep) == s
    decreases |s|
  {
    if |s| < |sep| {
    } else if s[..|sep|] == sep {
      PiecesJoin(s[|sep|..], sep);
      var p := Pieces(s[|sep|..], sep);
      assert ([""] + p)[1..] == p;
      assert s == sep + s[|sep|..];
    } else {
      PiecesJoin(s[1..], sep);
      var p := Pieces(s[1..], sep);
      JoinPrefixFirst([s[0]], p, sep);
      assert s == [s[0]] + s[1..];
    }
  }

  function DropTrailingEmpty(p: seq<string>): (r: seq<string>)
    ensures |r| <= |p| && r == p[..|r|]
    ensures r != [] ==> r[|r| - 1] != ""
    ensures forall i :: |r| <= i < |p| ==> p[i] == ""
  {
    if p != [] && p[|p| - 1] == "" then DropTrailingEmpty(p[..|p| - 1]) else p
  }

  /** `String.split` with a separator free of regular-expression metacharacters: a string
      without the separator gives itself; otherwise trailing empty pieces are dropped. */
  function Split(s: string, sep: string): (r: seq<string>)
    requires sep != []
    ensures |Pieces(s, sep)| == 1 ==> r == [s]
    ensures |Pieces(s, sep)| > 1 ==> r == [] || r[|r| - 1] != ""
    ensures |r| <= |Pieces(s, sep)| && r == Pieces(s, sep)[..|r|]
    ensures forall i :: |r| <= i < |Pieces(s, sep)| ==> Pieces(s, sep)[i] == ""
  {
    var p := Pieces(s, sep);
    PiecesJoin(s, sep);
    if |p| == 1 then p else DropTrailingEmpty(p)
  }

  predicate IsDigit(c: char)
  {
    '0' <= c <= '9'
  }

  function DigitsValue(s: string): nat
    requires forall i :: 0 <= i < |s| ==> IsDigit(s[i])
    decreases |s|
  {
    if s == [] then 0
    else
      var d := s[|s| - 1];
      assert IsDigit(d);
      assert d as int >= '0' as int;
      DigitsValue(s[..|s| - 1]) * 10 + (d as int - '0' as int)
  }

  /** `Integer.parseInt` for decimal digits: an optional sign, at least one digit, and a value
      that fits a Java int; anything else is a NumberFormatException (None). */
  function ParseInt(s: string): (r: Option<int>)
    ensures r.Some? ==> -Util.IntLimit <= r.value < Util.IntLimit
  {
    if s == [] then None
    else
      var digits := if s[0] == '-' || s[0] == '+' then s[1..] else s;
      if digits == [] || !(forall i :: 0 <= i < |digits| ==> IsDigit(digits[i])) then None
      else
        var v: int := if s[0] == '-' then 0 - DigitsValue(digits) else DigitsValue(digits);
        if -Util.IntLimit <= v < Util.IntLimit then Some(v) else None
  }

  /** The exceptions a malformed line raises: ArrayIndexOutOfBoundsException for a missing
      field, NumberFormatException for a coordinate that is not an int. */
  datatype ReadError = MissingField | BadNumber

  datatype Parsed = Parsed(node: Node) | Failed(error: ReadError)

  /** `new Node(splitted[0], parseInt(splitted[1]), parseInt(splitted[2]))`, evaluated from
      left to right, so the first failing step decides the exception. */
  function ParseCoordLine(line: string): Parsed
  {
    var parts := Split(line, FieldSeparator);
    if |parts| < 2 then Failed(MissingField)
    else match ParseInt(parts[1])
      case None => Failed(BadNumber)
      case Some(x) =>
        if |parts| < 3 then Failed(MissingField)
        else match ParseInt(parts[2])
          case None => Failed(BadNumber)
          case Some(y) => Parsed(Node(parts[0], x, y))
  }

  /** The name, the city list and the exception, if any, when reading stops. */
  datatype ReadResult = ReadResult(name: string, nodes: seq<Node>, error: Option<ReadError>)

  /** The `while (scanner.hasNextLine())` loop, from a given value of the `readCoordinates`
      flag, the name and the cities read so far. */
  function ReadLines(lines: seq<string>, readCoordinates: bool, name: string, nodes: seq<Node>): ReadResult
    decreases |lines|
  {
    if lines == [] then ReadResult(name, nodes, None)
    else
      var line := lines[0];
      if line == CoordSection then ReadLines(lines[1..], true, name, nodes)
      else if line == EndOfFile then ReadResult(name, nodes, None)
      else if !readCoordinates then
        var parts := Split(line, KeySeparator);
        if parts == [] then ReadResult(name, nodes, Some(MissingField))
        else if parts[0] != "NAME" then ReadLines(lines[1..], false, name, nodes)
        else if |parts| < 2 then ReadResult(name, nodes, Some(MissingField))
        else ReadLines(lines[1..], false, parts[1], nodes)
      else
        match ParseCoordLine(line)
        case Failed(e) => ReadResult(name, nodes, Some(e))
        case Parsed(node) => ReadLines(lines[1..], true, name, nodes + [node])
  }

  /** Nothing after the first EOF line is read. */
  lemma {:induction false} ReadStopsAtEof(pre: seq<string>, post: seq<string>, readCoordinates: bool,
                                          name: string, nodes: seq<Node>)
    ensures ReadLines(pre + [EndOfFile] + post, readCoordinates, name, nodes)
            == ReadLines(pre + [EndOfFile], readCoordinates, name, nodes)
    decreases |pre|
  {
    var long, short := pre + [EndOfFile] + post, pre + [EndOfFile];
    if pre == [] {
      assert long[0] == EndOfFile && short[0] == EndOfFile;
    } else {
      assert long[0] == pre[0] && short[0] == pre[0];
      assert long[1..] == pre[1..] + [EndOfFile] + post;
      assert short[1..] == pre[1..] + [EndOfFile];
      forall rc: bool, n: string, ns: seq<Node>
        ensures ReadLines(long[1..], rc, n, ns) == ReadLines(short[1..], rc, n, ns)
      {
        ReadStopsAtEof(pre[1..], post, rc, n, ns);
      }
    }
  }

  /** A line of the specification part that `readFromFile` accepts without an exception. */
  predicate HeaderLineOk(line: string)
  {
    var parts := Split(line, KeySeparator);
    line != CoordSection && line != EndOfFile && parts != [] && (parts[0] == "NAME" ==> |parts| >= 2)
  }

  /** The name after the specification part: the value of its last NAME line, if any. */
  function HeaderName(header: seq<string>, name: string): string
    requires forall i :: 0 <= i < |header| ==> HeaderLineOk(header[i])
    decreases |header|
  {
    if header == [] then name
    else
      var last := header[|header| - 1];
      assert HeaderLineOk(last);
      var parts := Split(last, KeySeparator);
      if parts[0] == "NAME" then parts[1] else HeaderName(header[..|header| - 1], name)
  }

  /** One line of the specification part: a NAME line sets the name, any other is skipped. */
  lemma ReadHeaderLine(line: string, rest: seq<string>, name: string, nodes: seq<Node>)
    requires HeaderLineOk(line)
    ensures var parts := Split(line, KeySeparator);
      ReadLines([line] + rest, false, name, nodes)
      == ReadLines(rest, false, if parts[0] == "NAME" then parts[1] else name, nodes)
  {
    var lines := [line] + rest;
    assert lines[0] == line && lines[1..] == rest;
  }

  /** The specification part changes only the name, as its NAME lines say, and adds no city. */
  lemma {:induction false} ReadHeader(header: seq<string>, rest: seq<string>, name: string, nodes: seq<Node>)
    requires forall i :: 0 <= i < |header| ==> HeaderLineOk(header[i])
    ensures ReadLines(header + rest, false, name, nodes)
            == ReadLines(rest, false, HeaderName(header, name), nodes)
    decreases |header|
  {
    if header != [] {
      var init, last := header[..|header| - 1], header[|header| - 1];
      assert header == init + [last];
      ReadHeader(init, [last] + rest, name, nodes);
      assert init + ([last] + rest) == header + rest;
      assert HeaderLineOk(last);
      ReadHeaderLine(last, rest, HeaderName(init, name), nodes);
    } else {
      assert header + rest == rest;
    }
  }

  /** A line of the data part that is read into a city without an exception. */
  predicate CoordLineOk(line: string)
  {
    line != EndOfFile && (line != CoordSection ==> ParseCoordLine(line).Parsed?)
  }

  /** The cities of a data part, in file order; repeated NODE_COORD_SECTION lines are skipped. */
  function ParsedNodes(coords: seq<string>): seq<Node>
    requires forall i :: 0 <= i < |coords| ==> CoordLineOk(coords[i])
    decreases |coords|
  {
    if coords == [] then []
    else
      assert CoordLineOk(coords[0]);
      (if coords[0] == CoordSection then [] else [ParseCoordLine(coords[0]).node]) + ParsedNodes(coords[1..])
  }

  /** One line of the data part: a city is appended, or a repeated NODE_COORD_SECTION line is
      skipped. */
  lemma ReadCoordLine(line: string, rest: seq<string>, name: string, nodes: seq<Node>)
    requires CoordLineOk(line)
    ensures ReadLines([line] + rest, true, name, nodes)
            == ReadLines(rest, true, name, nodes + if line == CoordSection then [] else [ParseCoordLine(line).node])
  {
    var lines := [line] + rest;
    assert lines[0] == line && lines[1..] == rest;
    if line == CoordSection {
      assert nodes + [] == nodes;
    }
  }

  /** The data part appends its cities in file order and changes nothing else. */
  lemma {:induction false} ReadCoordinates(coords: seq<string>, rest: seq<string>, name: string, nodes: seq<Node>)
    requires forall i :: 0 <= i < |coords| ==> CoordLineOk(coords[i])
    ensures ReadLines(coords + rest, true, name, nodes)
            == ReadLines(rest, true, name, nodes + ParsedNodes(coords))
    decreases |coords|
  {
    if coords != [] {
      var first, tail := coords[0], coords[1..];
      assert CoordLineOk(first);
      var added := if first == CoordSection then [] else [ParseCoordLine(first).node];
      assert ReadLines(coords + rest, true, name, nodes) == ReadLines(tail + rest, true, name, nodes + added) by {
        assert coords + rest == [first] + (tail + rest);
        ReadCoordLine(first, tail + rest, name, nodes);
      }
      assert forall i :: 0 <= i < |tail| ==> CoordLineOk(tail[i]) by {
        forall i | 0 <= i < |tail|
          ensures CoordLineOk(tail[i])
        {
          assert tail[i] == coords[i + 1];
        }
      }
      ReadCoordinates(tail, rest, name, nodes + added);
      assert ParsedNodes(coords) == added + ParsedNodes(tail);
      AppendAssociative(nodes, added, ParsedNodes(tail));
    } else {
      assert coords + rest == rest && nodes + ParsedNodes(coords) == nodes;
    }
  }

  lemma AppendAssociative<T>(a: seq<T>, b: seq<T>, c: seq<T>)
    ensures (a + b) + c == a + (b + c)
  {
  }

  /** A well-formed file: the name comes from the last NAME line of the specification part,
      the cities are the lines strictly between NODE_COORD_SECTION and EOF, in file order, and
      whatever follows EOF is ignored. */
  lemma ReadWellFormedFile(header: seq<string>, coords: seq<string>, tail: seq<string>,
                           name: string, nodes: seq<Node>)
    requires forall i :: 0 <= i < |header| ==> HeaderLineOk(header[i])
    requires forall i :: 0 <= i < |coords| ==> CoordLineOk(coords[i])
    ensures ReadLines(header + [CoordSection] + coords + [EndOfFile] + tail, false, name, nodes)
            == ReadResult(HeaderName(header, name), nodes + ParsedNodes(coords), None)
  {
    var name' := HeaderName(header, name);
    var pre := header + [CoordSection] + coords;
    ReadStopsAtEof(pre, tail, false, name, nodes);
    var body := [CoordSection] + (coords + [EndOfFile]);
    assert pre + [EndOfFile] == header + body;
    ReadHeader(header, body, name, nodes);
    assert ReadLines(body, false, name', nodes) == ReadLines(coords + [EndOfFile], true, name', nodes) by {
      assert body[0] == CoordSection && body[1..] == coords + [EndOfFile];
    }
    ReadCoordinates(coords, [EndOfFile], name', nodes);
  }
}
