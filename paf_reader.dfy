/**
 * Aggregating the per-line results of an alignment file (x.py, read_paf,
 * the loop over `executor.map(process_paf_line, lines)`).
 *
 * `executor.map` yields results in line order, so the model is a sequential
 * fold over the lines. A ValueError raised for one line is not caught by
 * read_paf: it reaches the caller at the first failing line in order, and
 * whatever was collected is lost.
 */
module PafReader {
  import opened Wrappers
  import opened PafRecord

  /** The two lists read_paf returns. */
  datatype Collected = Collected(breakpoints: seq<int>, variations: seq<string>)

  const NothingCollected := Collected([], [])

  /** One iteration: `if bp: breakpoints.extend(bp)` and `if var: variations.append(var)`. */
  function Absorb(acc: Collected, r: LineResult): (next: Collected)
    ensures acc.breakpoints <= next.breakpoints && acc.variations <= next.variations
    ensures |next.variations| <= |acc.variations| + 1
    ensures r == NoRecord ==> next == acc
  {
    var bps := if r.breakpoints.Some? && r.breakpoints.value != [] then acc.breakpoints + r.breakpoints.value
               else acc.breakpoints;
    var vars := if r.variation.Some? && r.variation.value != [] then acc.variations + [r.variation.value]
                else acc.variations;
    Collected(bps, vars)
  }

  /** The fold read_paf performs over `lines`, left to right; the first error wins. */
  function Collect(lines: seq<string>): Result<Collected, ParseError>
    decreases |lines|
  {
    if lines == [] then Ok(NothingCollected)
    else
      match Collect(lines[..|lines| - 1])
      case Err(e) => Err(e)
      case Ok(acc) =>
        match ProcessPafLine(lines[|lines| - 1])
        case Err(e) => Err(e)
        case Ok(r) => Ok(Absorb(acc, r))
  }

  /** Running two folds one after the other: the first error wins, otherwise the lists are concatenated. */
  function Then(a: Result<Collected, ParseError>, b: Result<Collected, ParseError>): Result<Collected, ParseError> {
    match a
    case Err(e) => Err(e)
    case Ok(x) =>
      match b
      case Err(e) => Err(e)
      case Ok(y) => Ok(Collected(x.breakpoints + y.breakpoints, x.variations + y.variations))
  }

  /**
   * The loop of read_paf. It returns the fold's result, and every accepted
   * line contributes two breakpoints and one label.
   */
  method ReadPaf(lines: seq<string>) returns (r: Result<Collected, ParseError>)
    ensures r == Collect(lines)
    ensures r.Ok? ==> |r.value.breakpoints| == 2 * |r.value.variations|
  {
    var breakpoints: seq<int> := [];
    var variations: seq<string> := [];
    for i := 0 to |lines|
      invariant Collect(lines[..i]) == Ok(Collected(breakpoints, variations))
      invariant |breakpoints| == 2 * |variations|
    {
      assert lines[..i + 1][..i] == lines[..i];
      var line := ProcessPafLine(lines[i]);
      match line {
        case Err(e) =>
          CollectErrorPersists(lines, i + 1);
          return Err(e);
        case Ok(LineResult(bp, variation)) =>
          if bp.Some? && bp.value != [] {
            breakpoints := breakpoints + bp.value;
          }
          if variation.Some? && variation.value != [] {
            variations := variations + [variation.value];
          }
      }
    }
    assert lines[..|lines|] == lines;
    r := Ok(Collected(breakpoints, variations));
  }

  /** Once a prefix of the lines fails, the whole fold fails with the same error. */
  lemma {:induction false} CollectErrorPersists(lines: seq<string>, k: nat)
    requires k <= |lines|
    requires Collect(lines[..k]).Err?
    ensures Collect(lines) == Collect(lines[..k])
    decreases |lines| - k
  {
    if k < |lines| {
      var next := lines[..k + 1];
      assert next[..k] == lines[..k];
      CollectErrorPersists(lines, k + 1);
    } else {
      assert lines[..k] == lines;
    }
  }

  /** Every accepted line adds two breakpoints and one label: |breakpoints| = 2·|variations|. */
  lemma {:induction false} CollectBalanced(lines: seq<string>)
    ensures Collect(lines).Ok? ==>
      |Collect(lines).value.breakpoints| == 2 * |Collect(lines).value.variations|
    decreases |lines|
  {
    if lines != [] {
      CollectBalanced(lines[..|lines| - 1]);
    }
  }

  /** Absorbing a line after a prefix of collected results only touches the part after it. */
  lemma AbsorbAfter(x: Collected, y: Collected, r: LineResult)
    ensures Absorb(Collected(x.breakpoints + y.breakpoints, x.variations + y.variations), r) ==
      Collected(x.breakpoints + Absorb(y, r).breakpoints, x.variations + Absorb(y, r).variations)
  {
  }

  /** Order preservation: folding `xs + ys` is folding `xs`, then `ys`, and concatenating. */
  lemma {:induction false} CollectAppend(xs: seq<string>, ys: seq<string>)
    ensures Collect(xs + ys) == Then(Collect(xs), Collect(ys))
    decreases |ys|
  {
    if ys == [] {
      assert xs + ys == xs;
      match Collect(xs)
      case Err(_) =>
      case Ok(x) => assert x.breakpoints + [] == x.breakpoints && x.variations + [] == x.variations;
    } else {
      var init := ys[..|ys| - 1];
      assert (xs + ys)[..|xs + ys| - 1] == xs + init;
      assert (xs + ys)[|xs + ys| - 1] == ys[|ys| - 1];
      CollectAppend(xs, init);
      assert ys[..|ys| - 1] == init;
      match Collect(xs)
      case Err(_) =>
      case Ok(x) =>
        match Collect(init)
        case Err(_) =>
        case Ok(y) =>
          match ProcessPafLine(ys[|ys| - 1])
          case Err(_) =>
          case Ok(r) =>
            AbsorbAfter(x, y, r);
    }
  }

  /** A line with too few fields shifts neither list. */
  lemma RejectedLineIgnored(xs: seq<string>, line: string, ys: seq<string>)
    requires |Fields(line)| < MinFields
    ensures Collect(xs + [line] + ys) == Collect(xs + ys)
  {
    CollectAppend(xs + [line], ys);
    CollectAppend(xs, [line]);
    CollectAppend(xs, ys);
    assert [line][..0] == [];
    match Collect(xs)
    case Err(_) =>
    case Ok(x) => assert x.breakpoints + [] == x.breakpoints && x.variations + [] == x.variations;
  }

  /** An accepted line appends its pair to the breakpoints and its label to the variations. */
  lemma AcceptedLineAppends(xs: seq<string>, line: string, queryStart: int, queryEnd: int, variation: string)
    requires ProcessPafLine(line) == Ok(LineResult(Some([queryStart, queryEnd]), Some(variation)))
    requires Collect(xs).Ok?
    ensures Collect(xs + [line]) == Ok(Collected(Collect(xs).value.breakpoints + [queryStart, queryEnd],
                                                 Collect(xs).value.variations + [variation]))
  {
    assert (xs + [line])[..|xs|] == xs;
  }

  /** If every line parses, the fold succeeds. */
  lemma {:induction false} CollectSucceeds(lines: seq<string>)
    requires forall i :: 0 <= i < |lines| ==> ProcessPafLine(lines[i]).Ok?
    ensures Collect(lines).Ok?
    decreases |lines|
  {
    if lines != [] {
      CollectSucceeds(lines[..|lines| - 1]);
    }
  }

  /** The fold fails with the error of the first line that does not parse. */
  lemma {:induction false} CollectFirstError(lines: seq<string>, i: nat)
    requires i < |lines| && ProcessPafLine(lines[i]).Err?
    requires forall j :: 0 <= j < i ==> ProcessPafLine(lines[j]).Ok?
    ensures Collect(lines) == Err(ProcessPafLine(lines[i]).error)
  {
    var prefix := lines[..i];
    CollectSucceeds(prefix);
    var upto := lines[..i + 1];
    assert upto[..i] == prefix;
    CollectErrorPersists(lines, i + 1);
  }
}
