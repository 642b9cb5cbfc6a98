/**
 * The training-data file format that `Kohonen::loadData` accepts: a header line
 * `label,<inputSize field names>` and then one line per image, a label followed
 * by at least `inputSize` pixel values. This module states, as functions over
 * the lines of the file, what loading returns and what it leaves in the
 * training set; the class in module SelfOrganizingMap runs it step by step.
 */
module TrainingData {
  import opened Wrappers
  import opened CsvLine

  /** One loaded image: the pixel vector of the source's `Image` struct. */
  datatype Image = Image(pixels: seq<real>)

  /**
   * The two number conversions, left abstract. `stoiAccepts(t)` is false when
   * `std::stoi(t)` throws. `scaledPixel(t)` is None when `std::stod(t)` throws,
   * and otherwise the value stored for the pixel (the parsed number over 255).
   */
  datatype NumberParsers = NumberParsers(stoiAccepts: string -> bool, scaledPixel: string -> Option<real>)

  /** What reading one data line gives. */
  datatype RowResult =
    | Parsed(pixels: seq<real>)
    | MissingLabel                  // the line yields no field at all
    | LabelThrows                   // std::stoi throws on the label field
    | InsufficientPixels(got: nat)  // only `got` pixel fields follow the label
    | InvalidPixel(index: nat)      // std::stod throws on pixel `index`

  /** Why loading stops and returns false. */
  datatype LoadError =
    | CannotOpen
    | NoHeader
    | BadHeader(fieldCount: nat)
    | MissingLabelAt(line: nat)
    | InsufficientPixelsAt(line: nat, got: nat)
    | InvalidPixelAt(line: nat, index: nat)

  /**
   * How `loadData` ends: returning true, returning false, letting std::stoi's
   * exception escape, or reading the first field of an empty header (undefined
   * behaviour in the source, kept apart here). Data lines are numbered from 1,
   * the header not counted.
   */
  datatype LoadOutcome =
    | Loaded
    | Rejected(error: LoadError)
    | LabelException(line: nat)
    | HeaderUndefined

  /** The values `vs` read before `r`'s fields, put in front of it. */
  function Prepend(vs: seq<real>, r: RowResult): RowResult
  {
    match r
    case Parsed(ps) => Parsed(vs + ps)
    case InsufficientPixels(got) => InsufficientPixels(|vs| + got)
    case InvalidPixel(i) => InvalidPixel(|vs| + i)
    case _ => r
  }

  lemma PrependTwice(us: seq<real>, vs: seq<real>, r: RowResult)
    ensures Prepend(us, Prepend(vs, r)) == Prepend(us + vs, r)
  {
    if r.Parsed? {
      assert us + (vs + r.pixels) == (us + vs) + r.pixels;
    }
  }

  /**
   * Reading `n` pixels from the fields after the label: stops at the first
   * missing field or at the first field std::stod rejects; fields past the
   * first `n` are never looked at.
   */
  function ParsePixels(tokens: seq<string>, n: nat, p: NumberParsers): (r: RowResult)
    ensures r.Parsed? || r.InsufficientPixels? || r.InvalidPixel?
    ensures r.Parsed? ==> |r.pixels| == n
    decreases n
  {
    if n == 0 then Parsed([])
    else if tokens == [] then InsufficientPixels(0)
    else match p.scaledPixel(tokens[0])
      case None => InvalidPixel(0)
      case Some(v) => Prepend([v], ParsePixels(tokens[1..], n - 1, p))
  }

  /**
   * What each result of ParsePixels means: all `n` pixels converted, in order;
   * fewer than `n` fields, all convertible; or the first field std::stod rejects.
   */
  lemma {:induction false} ParsePixelsMeaning(tokens: seq<string>, n: nat, p: NumberParsers)
    ensures var r := ParsePixels(tokens, n, p);
            r.Parsed? ==>
              n <= |tokens| &&
              forall i :: 0 <= i < n ==> p.scaledPixel(tokens[i]) == Some(r.pixels[i])
    ensures var r := ParsePixels(tokens, n, p);
            r.InsufficientPixels? ==>
              r.got == |tokens| < n &&
              forall i :: 0 <= i < |tokens| ==> p.scaledPixel(tokens[i]).Some?
    ensures var r := ParsePixels(tokens, n, p);
            r.InvalidPixel? ==>
              r.index < n && r.index < |tokens| && p.scaledPixel(tokens[r.index]).None? &&
              forall i :: 0 <= i < r.index ==> p.scaledPixel(tokens[i]).Some?
    decreases n
  {
    if n > 0 && tokens != [] && p.scaledPixel(tokens[0]).Some? {
      ParsePixelsMeaning(tokens[1..], n - 1, p);
      var r := ParsePixels(tokens, n, p);
      var r' := ParsePixels(tokens[1..], n - 1, p);
      if r.Parsed? {
        forall i | 0 <= i < n
          ensures p.scaledPixel(tokens[i]) == Some(r.pixels[i])
        {
          if i > 0 {
            assert tokens[i] == tokens[1..][i - 1];
          }
        }
      } else if r.InsufficientPixels? {
        forall i | 0 <= i < |tokens|
          ensures p.scaledPixel(tokens[i]).Some?
        {
          if i > 0 {
            assert tokens[i] == tokens[1..][i - 1];
          }
        }
      } else {
        assert tokens[r.index] == tokens[1..][r'.index];
        forall i | 0 <= i < r.index
          ensures p.scaledPixel(tokens[i]).Some?
        {
          if i > 0 {
            assert tokens[i] == tokens[1..][i - 1];
          }
        }
      }
    }
  }

  /** Reading one data line: its label field, then `n` pixel fields. */
  function ParseRow(line: string, n: nat, p: NumberParsers): (r: RowResult)
    ensures r.MissingLabel? <==> line == []
    ensures r.LabelThrows? <==> line != [] && !p.stoiAccepts(Fields(line)[0])
    ensures r.Parsed? ==> |r.pixels| == n
  {
    var fields := Fields(line);
    if fields == [] then MissingLabel
    else if !p.stoiAccepts(fields[0]) then LabelThrows
    else ParsePixels(fields[1..], n, p)
  }

  /** The streaming read of one data line, one getline call per field. */
  method ReadRow(line: string, n: nat, p: NumberParsers) returns (r: RowResult)
    ensures r == ParseRow(line, n, p)
  {
    var next := NextField(line, 0);
    if next.None? {
      return MissingLabel;
    }
    var token: string, pos: nat := next.value.0, next.value.1;
    ReadLabelStep(line, n, p);
    if !p.stoiAccepts(token) {
      return LabelThrows;
    }
    ghost var afterLabel := pos;
    var pixels := new real[n];
    for i := 0 to n
      invariant pos <= |line|
      invariant ParsePixels(FieldsFrom(line, afterLabel), n, p)
                == Prepend(pixels[..i], ParsePixels(FieldsFrom(line, pos), n - i, p))
    {
      ghost var before := pixels[..i];
      next := NextField(line, pos);
      if next.None? {
        ReadPixelStep(line, pos, n - i, p);
        return InsufficientPixels(i);
      }
      ReadPixelStep(line, pos, n - i, p);
      token, pos := next.value.0, next.value.1;
      var value := p.scaledPixel(token);
      if value.None? {
        return InvalidPixel(i);
      }
      PrependTwice(before, [value.value], ParsePixels(FieldsFrom(line, pos), n - i - 1, p));
      pixels[i] := value.value;
      assert pixels[..i + 1] == before + [value.value];
    }
    assert pixels[..] == pixels[..n] + [];
    return Parsed(pixels[..]);
  }

  /** The label step of reading a line, in terms of ParseRow. */
  lemma ReadLabelStep(line: string, n: nat, p: NumberParsers)
    requires NextField(line, 0).Some?
    ensures var token, next := NextField(line, 0).value.0, NextField(line, 0).value.1;
            ParseRow(line, n, p) ==
              if !p.stoiAccepts(token) then LabelThrows else ParsePixels(FieldsFrom(line, next), n, p)
  {
    var token, next := NextField(line, 0).value.0, NextField(line, 0).value.1;
    assert Fields(line) == [token] + FieldsFrom(line, next);
    assert Fields(line)[1..] == FieldsFrom(line, next);
  }

  /** One getline-and-stod step of the pixel loop, in terms of ParsePixels. */
  lemma ReadPixelStep(line: string, pos: nat, m: nat, p: NumberParsers)
    requires pos <= |line| && 0 < m
    ensures NextField(line, pos).None? ==> ParsePixels(FieldsFrom(line, pos), m, p) == InsufficientPixels(0)
    ensures NextField(line, pos).Some? ==>
              var token, next := NextField(line, pos).value.0, NextField(line, pos).value.1;
              ParsePixels(FieldsFrom(line, pos), m, p) ==
                match p.scaledPixel(token)
                case None => InvalidPixel(0)
                case Some(v) => Prepend([v], ParsePixels(FieldsFrom(line, next), m - 1, p))
  {
    if NextField(line, pos).Some? {
      var token, next := NextField(line, pos).value.0, NextField(line, pos).value.1;
      var tokens := FieldsFrom(line, pos);
      assert tokens == [token] + FieldsFrom(line, next);
      assert tokens[1..] == FieldsFrom(line, next);
    }
  }

  /** What a failing data line numbered `line` makes `loadData` do. */
  function RowFailure(r: RowResult, line: nat): LoadOutcome
    requires !r.Parsed?
  {
    match r
    case MissingLabel => Rejected(MissingLabelAt(line))
    case LabelThrows => LabelException(line)
    case InsufficientPixels(got) => Rejected(InsufficientPixelsAt(line, got))
    case InvalidPixel(i) => Rejected(InvalidPixelAt(line, i))
  }

  /**
   * Loading the data lines `rows` into a cleared training set, the first
   * of them numbered `line`: the outcome and the images appended.
   */
  function LoadRows(rows: seq<string>, n: nat, p: NumberParsers, line: nat): (LoadOutcome, seq<Image>)
    decreases |rows|
  {
    if rows == [] then (Loaded, [])
    else
      var row := ParseRow(rows[0], n, p);
      if row.Parsed? then
        var rest := LoadRows(rows[1..], n, p, line + 1);
        (rest.0, [Image(row.pixels)] + rest.1)
      else (RowFailure(row, line), [])
  }

  /** Loading from data line `k` on: that line, then the rest. */
  lemma LoadRowsStep(rows: seq<string>, k: nat, n: nat, p: NumberParsers, line: nat)
    requires k < |rows|
    ensures var row := ParseRow(rows[k], n, p);
            var rest := LoadRows(rows[k + 1..], n, p, line + 1);
            LoadRows(rows[k..], n, p, line) ==
              if row.Parsed? then (rest.0, [Image(row.pixels)] + rest.1) else (RowFailure(row, line), [])
  {
    assert rows[k..][1..] == rows[k + 1..];
  }

  /**
   * Loading data lines ends with true, a line-level failure or the label
   * exception, never with a header error; it appends at most one image per
   * line, exactly one per line on success, each of `n` pixels.
   */
  lemma {:induction false} LoadRowsShape(rows: seq<string>, n: nat, p: NumberParsers, line: nat)
    ensures var (outcome, data) := LoadRows(rows, n, p, line);
            outcome.Loaded? || outcome.LabelException? ||
            (outcome.Rejected? &&
             (outcome.error.MissingLabelAt? || outcome.error.InsufficientPixelsAt? || outcome.error.InvalidPixelAt?))
    ensures var (outcome, data) := LoadRows(rows, n, p, line);
            |data| <= |rows| && (outcome.Loaded? ==> |data| == |rows|)
    ensures var (outcome, data) := LoadRows(rows, n, p, line);
            forall i :: 0 <= i < |data| ==> |data[i].pixels| == n
    decreases |rows|
  {
    if rows != [] && ParseRow(rows[0], n, p).Parsed? {
      LoadRowsShape(rows[1..], n, p, line + 1);
      var data := LoadRows(rows, n, p, line).1;
      assert forall i :: 1 <= i < |data| ==> data[i] == LoadRows(rows[1..], n, p, line + 1).1[i - 1];
    }
  }

  /**
   * Loading a whole file, `None` standing for one that cannot be opened:
   * the outcome and the training set afterwards, `previous` being the one before.
   */
  function LoadFile(file: Option<seq<string>>, n: nat, p: NumberParsers, previous: seq<Image>): (LoadOutcome, seq<Image>)
  {
    match file
    case None => (Rejected(CannotOpen), previous)
    case Some(lines) =>
      if lines == [] then (Rejected(NoHeader), previous)
      else
        var header := Fields(lines[0]);
        if header == [] then (HeaderUndefined, previous)
        else if header[0] != "label" || |header| != n + 1 then (Rejected(BadHeader(|header|)), previous)
        else LoadRows(lines[1..], n, p, 1)
  }

  /** Pixel fields past the first `n` have no influence on reading a line. */
  lemma {:induction false} ParsePixelsIgnoresExtra(tokens: seq<string>, n: nat, p: NumberParsers)
    requires n <= |tokens|
    ensures ParsePixels(tokens, n, p) == ParsePixels(tokens[..n], n, p)
    decreases n
  {
    if n > 0 {
      assert tokens[..n][0] == tokens[0];
      assert tokens[..n][1..] == tokens[1..][..n - 1];
      ParsePixelsIgnoresExtra(tokens[1..], n - 1, p);
    }
  }

  /**
   * Two data lines whose first `n + 1` fields agree read the same: a line with
   * more than `n` pixel fields is read as if it ended after the `n`-th.
   */
  lemma RowIgnoresExtraFields(line1: string, line2: string, n: nat, p: NumberParsers)
    requires n + 1 <= |Fields(line1)| && n + 1 <= |Fields(line2)|
    requires Fields(line1)[..n + 1] == Fields(line2)[..n + 1]
    ensures ParseRow(line1, n, p) == ParseRow(line2, n, p)
  {
    var f1, f2 := Fields(line1), Fields(line2);
    assert f1[0] == f1[..n + 1][0] == f2[..n + 1][0] == f2[0];
    assert f1[1..][..n] == f1[..n + 1][1..] == f2[..n + 1][1..] == f2[1..][..n];
    ParsePixelsIgnoresExtra(f1[1..], n, p);
    ParsePixelsIgnoresExtra(f2[1..], n, p);
  }

  /**
   * Loading data lines succeeds exactly when every line reads, and then the
   * training set holds one image per line, in file order.
   */
  lemma {:induction false} LoadRowsSucceeds(rows: seq<string>, n: nat, p: NumberParsers, line: nat)
    ensures LoadRows(rows, n, p, line).0 == Loaded ==> |LoadRows(rows, n, p, line).1| == |rows|
    ensures LoadRows(rows, n, p, line).0 == Loaded <==>
            forall i :: 0 <= i < |rows| ==> ParseRow(rows[i], n, p).Parsed?
    ensures LoadRows(rows, n, p, line).0 == Loaded ==>
            forall i :: 0 <= i < |rows| ==> LoadRows(rows, n, p, line).1[i] == Image(ParseRow(rows[i], n, p).pixels)
    decreases |rows|
  {
    if rows != [] {
      LoadRowsSucceeds(rows[1..], n, p, line + 1);
      assert forall i :: 1 <= i < |rows| ==> rows[i] == rows[1..][i - 1];
    }
  }

  /**
   * When data line `j` (counted from 0 in `rows`) is the first that does not
   * read, loading stops there with that line's failure, numbered `line + j`,
   * and the training set holds the images of the lines before it.
   */
  lemma {:induction false} LoadRowsFirstFailure(rows: seq<string>, n: nat, p: NumberParsers, line: nat, j: nat)
    requires j < |rows|
    requires forall i :: 0 <= i < j ==> ParseRow(rows[i], n, p).Parsed?
    requires !ParseRow(rows[j], n, p).Parsed?
    ensures LoadRows(rows, n, p, line).0 == RowFailure(ParseRow(rows[j], n, p), line + j)
    ensures |LoadRows(rows, n, p, line).1| == j
    ensures forall i :: 0 <= i < j ==> LoadRows(rows, n, p, line).1[i] == Image(ParseRow(rows[i], n, p).pixels)
    decreases j
  {
    if j > 0 {
      assert forall i :: 1 <= i < |rows| ==> rows[i] == rows[1..][i - 1];
      LoadRowsFirstFailure(rows[1..], n, p, line + 1, j - 1);
    }
  }

  /**
   * The header is accepted exactly when its first field is "label" and it has
   * `n + 1` fields; a rejected header leaves the training set as it was.
   */
  lemma HeaderCheck(lines: seq<string>, n: nat, p: NumberParsers, previous: seq<Image>)
    requires lines != [] && Fields(lines[0]) != []
    ensures var (outcome, data) := LoadFile(Some(lines), n, p, previous);
            (outcome.Rejected? && outcome.error.BadHeader?) <==>
              (Fields(lines[0])[0] != "label" || |Fields(lines[0])| != n + 1)
    ensures var (outcome, data) := LoadFile(Some(lines), n, p, previous);
            outcome.Rejected? && outcome.error.BadHeader? ==> data == previous
  {
    LoadRowsShape(lines[1..], n, p, 1);
  }

  /**
   * The training set is cleared only once the header has been accepted: every
   * outcome decided before that leaves it unchanged, and every later outcome
   * leaves a training set that does not depend on the one before.
   */
  lemma ClearedOnlyAfterHeader(file: Option<seq<string>>, n: nat, p: NumberParsers, previous: seq<Image>, other: seq<Image>)
    ensures var (outcome, data) := LoadFile(file, n, p, previous);
            outcome == HeaderUndefined ||
            (outcome.Rejected? && (outcome.error.CannotOpen? || outcome.error.NoHeader? || outcome.error.BadHeader?))
            ==> data == previous
    ensures var (outcome, data) := LoadFile(file, n, p, previous);
            outcome != HeaderUndefined &&
            !(outcome.Rejected? && (outcome.error.CannotOpen? || outcome.error.NoHeader? || outcome.error.BadHeader?))
            ==> LoadFile(file, n, p, other) == (outcome, data)
  {
    if file.Some? && file.value != [] {
      LoadRowsShape(file.value[1..], n, p, 1);
    }
  }

  /**
   * Loading returns true exactly when the header is accepted and every later
   * line reads; then the training set holds one image of `n` pixels per line
   * after the header, in file order.
   */
  lemma LoadFileSucceeds(lines: seq<string>, n: nat, p: NumberParsers, previous: seq<Image>)
    ensures var (outcome, data) := LoadFile(Some(lines), n, p, previous);
            outcome == Loaded <==>
              && lines != []
              && Fields(lines[0]) != []
              && Fields(lines[0])[0] == "label" && |Fields(lines[0])| == n + 1
              && forall i :: 1 <= i < |lines| ==> ParseRow(lines[i], n, p).Parsed?
    ensures var (outcome, data) := LoadFile(Some(lines), n, p, previous);
            outcome == Loaded ==>
              && |data| == |lines| - 1
              && forall i :: 1 <= i < |lines| ==>
                   data[i - 1] == Image(ParseRow(lines[i], n, p).pixels) && |data[i - 1].pixels| == n
  {
    if lines != [] {
      var rows := lines[1..];
      LoadRowsSucceeds(rows, n, p, 1);
      LoadRowsShape(rows, n, p, 1);
      assert forall i :: 1 <= i < |lines| ==> lines[i] == rows[i - 1];
    }
  }

  /**
   * After an accepted header, when line `j` of the file is the first data line
   * that does not read, loading stops with that line's failure, numbered `j`,
   * and the training set keeps exactly the images of lines 1 to `j - 1`.
   */
  lemma LoadFileStopsAtFirstBadLine(lines: seq<string>, n: nat, p: NumberParsers, previous: seq<Image>, j: nat)
    requires lines != [] && Fields(lines[0]) != []
    requires Fields(lines[0])[0] == "label" && |Fields(lines[0])| == n + 1
    requires 1 <= j < |lines|
    requires forall i :: 1 <= i < j ==> ParseRow(lines[i], n, p).Parsed?
    requires !ParseRow(lines[j], n, p).Parsed?
    ensures var (outcome, data) := LoadFile(Some(lines), n, p, previous);
            && outcome == RowFailure(ParseRow(lines[j], n, p), j)
            && |data| == j - 1
            && forall i :: 1 <= i < j ==> data[i - 1] == Image(ParseRow(lines[i], n, p).pixels)
  {
    var rows := lines[1..];
    assert forall i :: 1 <= i < |lines| ==> lines[i] == rows[i - 1];
    LoadRowsFirstFailure(rows, n, p, 1, j - 1);
  }
}
