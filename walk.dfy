/** The batching of a Walk's output (snmpScan.go lines 92-136): each binding's
    line is appended to a buffer, and the buffer is printed and emptied when
    the counter exceeds the line size, checked after the line is appended
    and before the counter is incremented. */
module Walk {
  import opened Results
  import opened GoText
  import opened Render

  /** The batching state after a sequence of lines: the counter, the
      batches printed so far and the lines still buffered. */
  datatype Pace = Pace(count: int, batches: seq<seq<string>>, pending: seq<string>)

  /** One callback: buffer the line, flush if the counter exceeds the limit
      (resetting it to zero), then increment the counter. */
  function Step(p: Pace, line: string, limit: int): Pace
  {
    var pending := p.pending + [line];
    if p.count > limit then Pace(1, p.batches + [pending], [])
    else Pace(p.count + 1, p.batches, pending)
  }

  /** The batching state after the given lines, from a zero counter and an
      empty buffer. */
  function Paced(lines: seq<string>, limit: int): Pace
    decreases |lines|
  {
    if lines == [] then Pace(0, [], [])
    else Step(Paced(lines[..|lines| - 1], limit), lines[|lines| - 1], limit)
  }

  function Flatten(batches: seq<seq<string>>): seq<string>
    decreases |batches|
  {
    if batches == [] then [] else Flatten(batches[..|batches| - 1]) + batches[|batches| - 1]
  }

  /** The contents of the buffer holding the given lines. */
  function Concat(lines: seq<string>): string
    decreases |lines|
  {
    if lines == [] then [] else Concat(lines[..|lines| - 1]) + lines[|lines| - 1]
  }

  /** The text printed for each batch. */
  function Flushes(batches: seq<seq<string>>): (texts: seq<string>)
    ensures |texts| == |batches|
  {
    seq(|batches|, k requires 0 <= k < |batches| => Concat(batches[k]))
  }

  /** Nothing is lost or reordered: the batches followed by the buffer are
      the lines in order. */
  lemma {:induction false} PacedOrder(lines: seq<string>, limit: int)
    ensures Flatten(Paced(lines, limit).batches) + Paced(lines, limit).pending == lines
    decreases |lines|
  {
    if lines != [] {
      var n := |lines| - 1;
      var p := Paced(lines[..n], limit);
      var q := Paced(lines, limit);
      assert q == Step(p, lines[n], limit);
      PacedOrder(lines[..n], limit);
      var pending := p.pending + [lines[n]];
      if p.count > limit {
        FlattenSnoc(p.batches, pending);
        assert Flatten(q.batches) + q.pending == Flatten(p.batches) + pending;
      } else {
        assert Flatten(q.batches) + q.pending == Flatten(p.batches) + pending;
      }
      assert Flatten(p.batches) + pending == (Flatten(p.batches) + p.pending) + [lines[n]];
      assert lines == lines[..n] + [lines[n]];
    }
  }

  lemma FlattenSnoc(batches: seq<seq<string>>, batch: seq<string>)
    ensures Flatten(batches + [batch]) == Flatten(batches) + batch
  {
    assert (batches + [batch])[..|batches|] == batches;
  }

  /** Paced is a left fold of Step. */
  lemma PacedSnoc(lines: seq<string>, line: string, limit: int)
    ensures Paced(lines + [line], limit) == Step(Paced(lines, limit), line, limit)
  {
    assert (lines + [line])[..|lines|] == lines;
  }

  lemma ConcatSnoc(lines: seq<string>, line: string)
    ensures Concat(lines + [line]) == Concat(lines) + line
  {
    assert (lines + [line])[..|lines|] == lines;
  }

  lemma FlushesSnoc(batches: seq<seq<string>>, batch: seq<string>)
    ensures Flushes(batches + [batch]) == Flushes(batches) + [Concat(batch)]
  {
  }

  /** For a non-negative limit: the counter equals the buffered lines, plus
      one once a flush has happened; it stays within 0..limit+1, and is at
      least 1 after the first line; the first batch holds limit+2 lines and
      every later batch limit+1. */
  lemma {:induction false} PacedShape(lines: seq<string>, limit: int)
    requires limit >= 0
    ensures var p := Paced(lines, limit);
      && p.count == |p.pending| + (if p.batches == [] then 0 else 1)
      && 0 <= p.count <= limit + 1
      && (lines != [] ==> 1 <= p.count)
      && (p.batches != [] ==> |p.batches[0]| == limit + 2)
      && (forall k :: 1 <= k < |p.batches| ==> |p.batches[k]| == limit + 1)
    decreases |lines|
  {
    if lines != [] {
      var n := |lines| - 1;
      PacedShape(lines[..n], limit);
      var p := Paced(lines[..n], limit);
      var q := Paced(lines, limit);
      if p.count > limit {
        assert q.batches == p.batches + [p.pending + [lines[n]]];
        assert |p.pending + [lines[n]]| == (if p.batches == [] then limit + 2 else limit + 1);
        forall k | 1 <= k < |q.batches| ensures |q.batches[k]| == limit + 1 {
          if k < |p.batches| {
            assert q.batches[k] == p.batches[k];
          }
        }
        if p.batches != [] {
          assert q.batches[0] == p.batches[0];
        }
      }
    }
  }

  /** With a non-negative limit nothing is printed until limit+2 lines have
      been seen: a walk of at most limit+1 lines prints nothing, and the
      lines still buffered at the end are never more than limit+1. */
  lemma ShortWalkSilent(lines: seq<string>, limit: int)
    requires limit >= 0
    ensures Paced(lines, limit).batches == [] <==> |lines| <= limit + 1
    ensures |Paced(lines, limit).pending| <= limit + 1
  {
    var p := Paced(lines, limit);
    PacedShape(lines, limit);
    PacedOrder(lines, limit);
    if p.batches != [] {
      assert p.batches[..1] == [p.batches[0]];
      FlattenLength(p.batches);
      assert |Flatten(p.batches)| >= |p.batches[0]|;
    }
  }

  /** Flattening keeps at least as many lines as the first batch holds. */
  lemma {:induction false} FlattenLength(batches: seq<seq<string>>)
    requires batches != []
    ensures |Flatten(batches)| >= |batches[0]|
    decreases |batches|
  {
    var n := |batches| - 1;
    if n > 0 {
      FlattenLength(batches[..n]);
      assert batches[..n][0] == batches[0];
    } else {
      assert batches[..n] == [];
    }
  }

  /** With a negative limit every line is printed on its own as it arrives
      and nothing stays buffered. */
  lemma {:induction false} NegativeLimit(lines: seq<string>, limit: int)
    requires limit < 0
    ensures Paced(lines, limit).pending == []
    ensures Paced(lines, limit).count == (if lines == [] then 0 else 1)
    ensures |Paced(lines, limit).batches| == |lines|
    ensures forall k :: 0 <= k < |lines| ==> Paced(lines, limit).batches[k] == [lines[k]]
    decreases |lines|
  {
    if lines != [] {
      var n := |lines| - 1;
      NegativeLimit(lines[..n], limit);
      var p := Paced(lines[..n], limit);
      var q := Paced(lines, limit);
      assert q == Step(p, lines[n], limit);
      assert p.count > limit;
      assert p.pending + [lines[n]] == [lines[n]];
      assert q.batches == p.batches + [[lines[n]]];
      forall k | 0 <= k < |lines| ensures q.batches[k] == [lines[k]] {
        if k < n {
          assert q.batches[k] == p.batches[k];
          assert lines[..n][k] == lines[k];
        }
      }
    }
  }

  // ---------------------------------------------------------------------
  // The lines a walk renders

  /** The position of the first nil value, or the length when there is
      none: the callback panics there. */
  function NullIndex(pdus: seq<Pdu>): (i: nat)
    ensures i <= |pdus|
    ensures forall k :: 0 <= k < i ==> !pdus[k].value.Null?
    ensures i < |pdus| ==> pdus[i].value.Null?
    decreases |pdus|
  {
    if pdus == [] then 0
    else if pdus[0].value.Null? then 0
    else 1 + NullIndex(pdus[1..])
  }

  /** The lines rendered before the walk ends or panics. */
  function WalkLines(pdus: seq<Pdu>): (lines: seq<string>)
    ensures |lines| == NullIndex(pdus)
  {
    seq(NullIndex(pdus), k requires 0 <= k < NullIndex(pdus) => WalkLine(pdus[k]).value)
  }

  /** A nil binding after the first i lines ends them. */
  lemma WalkLinesPanic(pdus: seq<Pdu>, i: nat)
    requires i < |pdus| && i <= NullIndex(pdus) && pdus[i].value.Null?
    ensures i == NullIndex(pdus) && WalkLines(pdus)[..i] == WalkLines(pdus)
  {
  }

  /** Any other binding after the first i lines adds the next line. */
  lemma WalkLinesStep(pdus: seq<Pdu>, i: nat)
    requires i < |pdus| && i <= NullIndex(pdus) && !pdus[i].value.Null?
    ensures i < NullIndex(pdus)
    ensures WalkLines(pdus)[..i + 1] == WalkLines(pdus)[..i] + [WalkLine(pdus[i]).value]
  {
    TakeSnoc(WalkLines(pdus), i);
  }

  lemma TakeSnoc(s: seq<string>, i: nat)
    requires i < |s|
    ensures s[..i + 1] == s[..i] + [s[i]]
  {
  }

  /** What a walk over the given bindings prints: the flushed batches of the
      rendered lines; the lines still buffered are dropped. */
  function WalkOutput(pdus: seq<Pdu>, limit: int): seq<string>
  {
    Flushes(Paced(WalkLines(pdus), limit).batches)
  }

  /** With a non-negative limit, a walk of at most limit+1 bindings prints
      nothing. */
  lemma ShortWalkOutput(pdus: seq<Pdu>, limit: int)
    requires limit >= 0 && |pdus| <= limit + 1
    ensures WalkOutput(pdus, limit) == []
  {
    ShortWalkSilent(WalkLines(pdus), limit);
  }

  /** What a walk prints is, line for line, a prefix of what it rendered;
      the part left out is exactly the final buffer, which holds at most
      limit+1 lines. */
  lemma WalkOutputPrefix(pdus: seq<Pdu>, limit: int)
    requires limit >= 0
    ensures var lines := WalkLines(pdus);
      var printed := Flatten(Paced(lines, limit).batches);
      && |printed| <= |lines|
      && printed == lines[..|printed|]
      && |lines| - |printed| <= limit + 1
  {
    var lines := WalkLines(pdus);
    PacedOrder(lines, limit);
    ShortWalkSilent(lines, limit);
    var p := Paced(lines, limit);
    assert lines == Flatten(p.batches) + p.pending;
    assert lines[..|Flatten(p.batches)|] == Flatten(p.batches);
  }

  // ---------------------------------------------------------------------
  // The callback's state

  /** The counter and the buffer of the Walk callback, with the texts
      printed so far; `lines` records the lines appended since the walk
      began. */
  class WalkBuffer {
    const lineSize: int
    var count: int
    var payload: string
    var printed: seq<string>
    ghost var lines: seq<string>

    ghost predicate Valid()
      reads this
    {
      var p := Paced(lines, lineSize);
      count == p.count && payload == Concat(p.pending) && printed == Flushes(p.batches)
    }

    constructor(lineSize: int)
      ensures Valid()
      ensures this.lineSize == lineSize && lines == [] && printed == []
    {
      this.lineSize := lineSize;
      count := 0;
      payload := "";
      printed := [];
      lines := [];
    }

    /** The callback for one binding.  A nil value panics before anything
        is flushed; any other appends its line and flushes as the counter
        dictates. */
    method Visit(pdu: Pdu) returns (panicked: bool)
      requires Valid()
      modifies this
      ensures Valid()
      ensures panicked <==> pdu.value.Null?
      ensures panicked ==> lines == old(lines) && printed == old(printed)
      ensures !panicked ==> lines == old(lines) + [WalkLine(pdu).value]
    {
      if pdu.value.Null? {
        return true;
      }
      panicked := false;
      var line := RenderLine(pdu);
      var p := Paced(lines, lineSize);
      PacedSnoc(lines, line, lineSize);
      ConcatSnoc(p.pending, line);
      lines := lines + [line];
      payload := payload + line;
      if count > lineSize {
        FlushesSnoc(p.batches, p.pending + [line]);
        printed := printed + [payload];
        count := 0;
        payload := "";
      }
      count := count + 1;
    }
  }

  /** A walk with a fresh callback state: the bindings arrive in order
      until the walk ends or the callback panics at a nil value.  Returns
      what was printed and whether the callback panicked. */
  method RunWalk(pdus: seq<Pdu>, lineSize: int) returns (printed: seq<string>, panicked: bool)
    ensures printed == WalkOutput(pdus, lineSize)
    ensures panicked <==> NullIndex(pdus) < |pdus|
  {
    var buffer := new WalkBuffer(lineSize);
    var i := 0;
    panicked := false;
    while i < |pdus| && !panicked
      invariant 0 <= i <= |pdus|
      invariant buffer.Valid() && buffer.lineSize == lineSize
      invariant !panicked ==> i <= NullIndex(pdus) && buffer.lines == WalkLines(pdus)[..i]
      invariant panicked ==> i == NullIndex(pdus) + 1 && buffer.lines == WalkLines(pdus)
      decreases |pdus| - i
    {
      if pdus[i].value.Null? {
        WalkLinesPanic(pdus, i);
      } else {
        WalkLinesStep(pdus, i);
      }
      panicked := buffer.Visit(pdus[i]);
      i := i + 1;
    }
    if !panicked {
      assert WalkLines(pdus)[..i] == WalkLines(pdus);
    }
    printed := buffer.printed;
  }

  /** The type switch of the Walk callback. */
  method RenderLine(pdu: Pdu) returns (line: string)
    requires !pdu.value.Null?
    ensures Some(line) == WalkLine(pdu)
  {
    match pdu.value {
      case Octets(b) =>
        var hex := HexEncode(b);
        if |hex| == 12 {
          var mac := FormatMac(hex);
          line := pdu.name + ": " + mac + "\n";
        } else {
          line := pdu.name + ": " + BytesToText(b) + "\n";
        }
      case Text(s) =>
        line := pdu.name + ": " + s + "\n";
      case Int(i) =>
        line := pdu.name + ": " + Itoa(i) + "\n";
      case Unsigned(n) =>
        line := pdu.name + ": " + Itoa(n) + "\n";
      case Other(shown, typeName) =>
        line := "*" + pdu.name + ": " + shown + typeName + "\n";
    }
  }
}
