/** Target expansion and launch pacing (main.go, `main`).

    The `-t` text is split on ',' into items; each item is split on '.',
    and its fourth component on '-'.  Each item yields the addresses
    `prefix.start` .. `prefix.end`, but both branches that compute the end
    make it equal to the start, so every item yields exactly one address and
    the text after '-' is never read.  One scan is launched per address; a
    counter shared by all items makes the launcher sleep once it exceeds
    200.  A malformed item ends the run at that item. */
module Targets {
  import opened Results
  import opened GoText

  /** The launcher sleeps when its counter exceeds this value. */
  const Threshold: nat := 200

  /** A parsed item: its '.'-separated components and the range of last
      octets to scan. */
  datatype Item = Item(netId: seq<string>, start: int, end: int)

  /** Why an item aborts the run.  TooFewComponents is the log.Fatal on
      fewer than three components; MissingLastOctet is the index-out-of-range
      panic on exactly three; StartNotValid and EndNotValid are the two
      log.Fatalf calls on the last component.  RangeNeverEnds is an item
      whose range ends at the largest 64-bit int: the loop index is an int64,
      so the increment after the last address wraps to the smallest int64,
      which is again within the range, and the loop over that item never
      ends (the launches go on for ever and the final Wait is never reached). */
  datatype ItemError = TooFewComponents | MissingLastOctet | StartNotValid | EndNotValid
                     | RangeNeverEnds

  /** The checks and conversions `main` applies to one item.  The end bound
      is re-parsed from the same text as the start when there is no '-', and
      copied from the start when there is one. */
  function ParseItem(item: string): (r: Result<Item, ItemError>)
    ensures r.Ok? ==> |r.value.netId| >= 4 && r.value.end == r.value.start
    ensures r.Ok? ==> MinInt64 <= r.value.start <= MaxInt64
    ensures var netId := Split(item, '.');
      r.Ok? <==> |netId| >= 4 && Atoi(Split(netId[3], '-')[0]).Some?
    ensures var netId := Split(item, '.');
      r == Err(StartNotValid) <==> |netId| >= 4 && Atoi(Split(netId[3], '-')[0]).None?
    ensures r.Ok? ==> Atoi(Split(r.value.netId[3], '-')[0]) == Some(r.value.start)
    ensures r != Err(EndNotValid) && r != Err(RangeNeverEnds)
  {
    ParseComponents(Split(item, '.'))
  }

  /** ParseItem after the split on '.'. */
  function ParseComponents(netId: seq<string>): (r: Result<Item, ItemError>)
    ensures r.Ok? ==> r.value.netId == netId
    ensures r.Ok? <==> |netId| >= 4 && Atoi(Split(netId[3], '-')[0]).Some?
    ensures r == Err(StartNotValid) <==> |netId| >= 4 && Atoi(Split(netId[3], '-')[0]).None?
    ensures r.Ok? ==> Atoi(Split(netId[3], '-')[0]) == Some(r.value.start)
  {
    if |netId| < 3 then Err(TooFewComponents)
    else if |netId| == 3 then Err(MissingLastOctet)
    else
      var rangeSlice := Split(netId[3], '-');
      match Atoi(rangeSlice[0])
      case None => Err(StartNotValid)
      case Some(start) =>
        if |rangeSlice| == 1 then
          match Atoi(rangeSlice[0])
          case None => Err(EndNotValid)
          case Some(end) => Ok(Item(netId, start, end))
        else
          Ok(Item(netId, start, start))
  }

  /** The address built for last octet i: the first three components
      verbatim, then the decimal rendering of i. */
  function Address(it: Item, i: int): string
    requires |it.netId| >= 3
  {
    it.netId[0] + "." + it.netId[1] + "." + it.netId[2] + "." + Itoa(i)
  }

  /** Whether the inner loop over an item never ends: its index reaches the
      largest 64-bit int, where the increment wraps. */
  predicate NeverEnds(it: Item)
  {
    it.start <= it.end == MaxInt64
  }

  /** The addresses the inner loop visits for one item, start to end, when
      that loop ends (see NeverEnds). */
  function ItemAddresses(it: Item): seq<string>
    requires |it.netId| >= 3
  {
    var n := if it.end >= it.start then it.end - it.start + 1 else 0;
    seq(n, k requires 0 <= k < n => Address(it, it.start + k))
  }

  /** The single address an item contributes, or why it aborts the run. */
  function ItemAddress(item: string): Result<string, ItemError>
  {
    match ParseItem(item)
    case Ok(it) => if NeverEnds(it) then Err(RangeNeverEnds) else Ok(Address(it, it.start))
    case Err(e) => Err(e)
  }

  /** What one item contributes to the run: the addresses of its range,
      or why it aborts the run. */
  function Outcome(item: string): Result<seq<string>, ItemError>
  {
    match ParseItem(item)
    case Ok(it) => if NeverEnds(it) then Err(RangeNeverEnds) else Ok(ItemAddresses(it))
    case Err(e) => Err(e)
  }

  function Outcomes(items: seq<string>): (rs: seq<Result<seq<string>, ItemError>>)
    ensures |rs| == |items|
  {
    seq(|items|, k requires 0 <= k < |items| => Outcome(items[k]))
  }

  datatype Failure = Failure(index: nat, error: ItemError)

  /** The addresses launched, in order, and the item that ended the run
      early, if any. */
  datatype Expansion = Expansion(addresses: seq<string>, failure: Option<Failure>)

  /** The run over the items' outcomes in order: the addresses of each item
      are appended until the first item that aborts. */
  function Collect(rs: seq<Result<seq<string>, ItemError>>): Expansion
    decreases |rs|
  {
    if rs == [] then Expansion([], None)
    else
      var e := Collect(rs[..|rs| - 1]);
      if e.failure.Some? then e
      else
        match rs[|rs| - 1]
        case Err(err) => Expansion(e.addresses, Some(Failure(|rs| - 1, err)))
        case Ok(addrs) => Expansion(e.addresses + addrs, None)
  }

  /** What `main` launches for a list of items. */
  function Expand(items: seq<string>): Expansion
  {
    Collect(Outcomes(items))
  }

  /** The expansion of the `-t` text. */
  function Targets(spec: string): Expansion
  {
    Expand(Split(spec, ','))
  }

  // ---------------------------------------------------------------------
  // Properties of the expansion

  /** The inner loop over a parsed item runs exactly once, unless the
      item's one octet is the largest 64-bit int, where it never ends. */
  lemma OneAddressPerItem(it: Item)
    requires |it.netId| >= 3 && it.end == it.start
    ensures NeverEnds(it) <==> it.start == MaxInt64
    ensures ItemAddresses(it) == [Address(it, it.start)]
  {
  }

  /** An item that parses, and whose loop ends, contributes exactly its one
      address; any other item ends the run with the same error. */
  lemma OutcomeSingle(item: string)
    ensures Outcome(item).Ok? <==> ItemAddress(item).Ok?
    ensures Outcome(item).Ok? ==> Outcome(item).value == [ItemAddress(item).value]
    ensures Outcome(item).Err? ==> ItemAddress(item) == Err(Outcome(item).error)
  {
    if ParseItem(item).Ok? {
      OneAddressPerItem(ParseItem(item).value);
    }
  }

  /** The property CollectSingles states of a run whose outcomes hold one
      address each. */
  ghost predicate OneEach(rs: seq<Result<seq<string>, ItemError>>, e: Expansion)
  {
    (e.failure.None? ==> |e.addresses| == |rs|) &&
    (e.failure.Some? ==>
      e.failure.value.index == |e.addresses| < |rs| &&
      rs[e.failure.value.index] == Err(e.failure.value.error)) &&
    forall k :: 0 <= k < |e.addresses| ==> rs[k] == Ok([e.addresses[k]])
  }

  /** When every successful outcome is one address, the run launches one
      address per item, in item order, up to the first failure, which is
      recorded with its position. */
  lemma {:induction false} CollectSingles(rs: seq<Result<seq<string>, ItemError>>)
    requires forall k :: 0 <= k < |rs| && rs[k].Ok? ==> |rs[k].value| == 1
    ensures OneEach(rs, Collect(rs))
    decreases |rs|
  {
    if rs != [] {
      var n := |rs| - 1;
      var init := rs[..n];
      assert forall k :: 0 <= k < n && init[k].Ok? ==> |init[k].value| == 1 by {
        forall k | 0 <= k < n && init[k].Ok? ensures |init[k].value| == 1 {
          assert init[k] == rs[k];
        }
      }
      CollectSingles(init);
      var e := Collect(init);
      forall k | 0 <= k < |e.addresses| ensures rs[k] == Ok([e.addresses[k]]) {
        assert init[k] == rs[k];
      }
      if e.failure.Some? {
        assert init[e.failure.value.index] == rs[e.failure.value.index];
      } else if rs[n].Ok? {
        var addrs := e.addresses + rs[n].value;
        assert |e.addresses| == n && |rs[n].value| == 1;
        assert rs[n].value == [rs[n].value[0]] && addrs[n] == rs[n].value[0];
      }
    }
  }

  /** The property ExpandOnePerItem states of a list of items. */
  ghost predicate OnePerItem(items: seq<string>, e: Expansion)
  {
    (e.failure.None? ==> |e.addresses| == |items|) &&
    (e.failure.Some? ==>
      e.failure.value.index == |e.addresses| < |items| &&
      ItemAddress(items[e.failure.value.index]) == Err(e.failure.value.error)) &&
    forall k :: 0 <= k < |e.addresses| ==> ItemAddress(items[k]) == Ok(e.addresses[k])
  }

  /** Each item before the first malformed or never-ending one yields
      exactly one address, in item order, with no deduplication; the first
      such item ends the expansion. */
  lemma ExpandOnePerItem(items: seq<string>)
    ensures OnePerItem(items, Expand(items))
  {
    var rs := Outcomes(items);
    forall k | 0 <= k < |rs|
      ensures rs[k].Ok? ==> rs[k].value == [ItemAddress(items[k]).value]
      ensures rs[k].Err? ==> ItemAddress(items[k]) == Err(rs[k].error)
    {
      OutcomeSingle(items[k]);
    }
    CollectSingles(rs);
    var e := Collect(rs);
    forall k | 0 <= k < |e.addresses| ensures ItemAddress(items[k]) == Ok(e.addresses[k]) {
      OutcomeSingle(items[k]);
    }
  }

  /** Once an outcome has failed, later outcomes change nothing. */
  lemma {:induction false} CollectStops(rs: seq<Result<seq<string>, ItemError>>, j: nat)
    requires j <= |rs|
    requires Collect(rs[..j]).failure.Some?
    ensures Collect(rs) == Collect(rs[..j])
    decreases |rs|
  {
    if j < |rs| {
      var init := rs[..|rs| - 1];
      assert init[..j] == rs[..j];
      CollectStops(init, j);
    } else {
      assert rs[..j] == rs;
    }
  }

  lemma OutcomesPrefix(items: seq<string>, j: nat)
    requires j <= |items|
    ensures Outcomes(items)[..j] == Outcomes(items[..j])
  {
  }

  /** Once an item has failed, later items change nothing. */
  lemma ExpandStops(items: seq<string>, j: nat)
    requires j <= |items|
    requires Expand(items[..j]).failure.Some?
    ensures Expand(items) == Expand(items[..j])
  {
    OutcomesPrefix(items, j);
    CollectStops(Outcomes(items), j);
  }

  /** Expanding one more item. */
  lemma ExpandSnoc(items: seq<string>, j: nat)
    requires j < |items|
    ensures Expand(items[..j + 1]) == Collect(Outcomes(items[..j]) + [Outcome(items[j])])
  {
    OutcomesPrefix(items, j);
    OutcomesPrefix(items, j + 1);
    assert Outcomes(items)[..j + 1] == Outcomes(items)[..j] + [Outcome(items[j])];
  }

  lemma CollectSnoc(rs: seq<Result<seq<string>, ItemError>>, r: Result<seq<string>, ItemError>)
    ensures var e := Collect(rs);
      Collect(rs + [r]) ==
        if e.failure.Some? then e
        else match r
          case Err(err) => Expansion(e.addresses, Some(Failure(|rs|, err)))
          case Ok(addrs) => Expansion(e.addresses + addrs, None)
  {
    assert (rs + [r])[..|rs|] == rs;
  }

  /** Splitting `x + sep + y` when y has no separator. */
  lemma SplitSnoc(x: string, sep: char, y: string)
    requires sep !in y
    ensures Split(x + [sep] + y, sep) == Split(x, sep) + [y]
  {
    SplitNoSep(y, sep);
    SplitAppend(x, sep, y);
  }

  lemma SplitFour(a: string, b: string, c: string, d: string)
    requires '.' !in a && '.' !in b && '.' !in c && '.' !in d
    ensures Split(a + "." + b + "." + c + "." + d, '.') == [a, b, c, d]
  {
    var ab, abc := a + "." + b, a + "." + b + "." + c;
    SplitNoSep(a, '.');
    SplitSnoc(a, '.', b);
    assert Split(ab, '.') == [a, b];
    SplitSnoc(ab, '.', c);
    assert Split(abc, '.') == [a, b, c];
    SplitSnoc(abc, '.', d);
    assert Split(abc + "." + d, '.') == [a, b, c] + [d];
  }

  /** A hyphenated item `a.b.c.d-tail` yields only `a.b.c.<d>`: the end
      bound is never parsed, whatever follows the '-', and the last octet is
      not checked against 0..255 (only the largest 64-bit int is singled
      out, since the loop over it never ends). */
  lemma HyphenEndIgnored(a: string, b: string, c: string, d: string, tail: string)
    requires '.' !in a && '.' !in b && '.' !in c && '.' !in d && '.' !in tail
    requires '-' !in d && Atoi(d).Some?
    ensures ItemAddress(a + "." + b + "." + c + "." + (d + "-" + tail))
         == if Atoi(d).value == MaxInt64 then Err(RangeNeverEnds)
            else Ok(a + "." + b + "." + c + "." + Itoa(Atoi(d).value))
  {
    var last := d + "-" + tail;
    SplitFour(a, b, c, last);
    SplitAppend(d, '-', tail);
    SplitNoSep(d, '-');
  }

  /** A single item without '-' yields `a.b.c.<d>`, unless d is the
      largest 64-bit int. */
  lemma PlainItem(a: string, b: string, c: string, d: string)
    requires '.' !in a && '.' !in b && '.' !in c && '.' !in d
    requires '-' !in d && Atoi(d).Some?
    ensures ItemAddress(a + "." + b + "." + c + "." + d)
         == if Atoi(d).value == MaxInt64 then Err(RangeNeverEnds)
            else Ok(a + "." + b + "." + c + "." + Itoa(Atoi(d).value))
  {
    SplitFour(a, b, c, d);
    SplitNoSep(d, '-');
  }

  /** A start that is not a 64-bit decimal integer, as in `10.0.0.x`,
      `10.0.0.1a-5` or a start beyond the int64 range, is fatal. */
  lemma StartRejected(a: string, b: string, c: string, d: string)
    requires '.' !in a && '.' !in b && '.' !in c && '.' !in d
    requires Atoi(Split(d, '-')[0]).None?
    ensures ItemAddress(a + "." + b + "." + c + "." + d) == Err(StartNotValid)
  {
    SplitFour(a, b, c, d);
  }

  /** `a.b.c.9223372036854775807` (and any range starting there) never
      finishes launching: the loop index wraps after the largest int64. */
  lemma LargestOctetNeverEnds(a: string, b: string, c: string, tail: string)
    requires '.' !in a && '.' !in b && '.' !in c && '.' !in tail
    ensures ItemAddress(a + "." + b + "." + c + "." + Itoa(MaxInt64)) == Err(RangeNeverEnds)
    ensures ItemAddress(a + "." + b + "." + c + "." + (Itoa(MaxInt64) + "-" + tail)) == Err(RangeNeverEnds)
  {
    var d := Itoa(MaxInt64);
    AtoiItoa(MaxInt64);
    DigitsValue(MaxInt64);
    assert forall i :: 0 <= i < |d| ==> d[i] != '.' && d[i] != '-';
    PlainItem(a, b, c, d);
    HyphenEndIgnored(a, b, c, d, tail);
  }

  /** An empty start, as in `10.0.0.-5`, is fatal. */
  lemma EmptyStartRejected(a: string, b: string, c: string, tail: string)
    requires '.' !in a && '.' !in b && '.' !in c && '.' !in tail
    ensures ItemAddress(a + "." + b + "." + c + "." + ("-" + tail)) == Err(StartNotValid)
  {
    SplitFour(a, b, c, "-" + tail);
    SplitAppend([], '-', tail);
    assert [] + ['-'] + tail == "-" + tail;
  }

  /** Components after the fourth are ignored. */
  lemma ExtraComponentsIgnored(item: string, rest: string)
    requires |Split(item, '.')| >= 4
    ensures ItemAddress(item + "." + rest) == ItemAddress(item)
  {
    var netId := Split(item, '.');
    var longer := netId + Split(rest, '.');
    SplitAppend(item, '.', rest);
    assert longer[3] == netId[3];
    ComponentsAfterFourth(netId, longer);
  }

  lemma ComponentsAfterFourth(netId: seq<string>, longer: seq<string>)
    requires 4 <= |netId| <= |longer| && longer[..4] == netId[..4]
    ensures ParseComponents(longer).Ok? == ParseComponents(netId).Ok?
    ensures ParseComponents(longer).Err? ==> ParseComponents(longer) == ParseComponents(netId)
    ensures ParseComponents(longer).Ok? ==>
      Address(ParseComponents(longer).value, ParseComponents(longer).value.start)
      == Address(ParseComponents(netId).value, ParseComponents(netId).value.start)
  {
    assert longer[3] == longer[..4][3] == netId[..4][3] == netId[3];
    assert longer[0] == netId[0] && longer[1] == netId[1] && longer[2] == netId[2] by {
      assert longer[..4][0] == longer[0] && longer[..4][1] == longer[1] && longer[..4][2] == longer[2];
    }
  }

  /** Too few components abort the run: fewer than three is the fatal
      log message, exactly three the out-of-range index. */
  lemma ShortItemRejected(item: string)
    requires |Split(item, '.')| < 4
    ensures ItemAddress(item) == Err(if |Split(item, '.')| < 3 then TooFewComponents else MissingLastOctet)
  {
  }

  /** A `-t` text without ',' is a single item. */
  lemma SingleItem(spec: string)
    requires ',' !in spec
    ensures Targets(spec) == match ItemAddress(spec)
      case Ok(a) => Expansion([a], None)
      case Err(e) => Expansion([], Some(Failure(0, e)))
  {
    SplitNoSep(spec, ',');
    assert Outcomes([spec]) == [] + [Outcome(spec)];
    CollectSnoc([], Outcome(spec));
    OutcomeSingle(spec);
  }

  /** `10.0.0.1-100` launches 10.0.0.1 only. */
  lemma HyphenExample()
    ensures Targets("10.0.0.1-100") == Expansion(["10.0.0.1"], None)
  {
    var spec, one := "10.0.0.1-100", "1";
    assert spec == "10" + "." + "0" + "." + "0" + "." + (one + "-" + "100");
    assert "10.0.0.1" == "10" + "." + "0" + "." + "0" + "." + one;
    assert ',' !in spec;
    assert AllDigits(one) && DecimalValue(one) == 1;
    assert Atoi(one) == Some(1) && Itoa(1) == one;
    HyphenEndIgnored("10", "0", "0", one, "100");
    SingleItem(spec);
  }

  // ---------------------------------------------------------------------
  // The launch loop

  /** One launched scan, and whether the launcher slept right after it. */
  datatype Launch = Launch(address: string, pausedAfter: bool)

  /** How the run ends: waiting for every launched scan, aborted at a
      malformed item (earlier launches have already happened), or never, at
      the item with the given index whose loop index wraps (see NeverEnds):
      from there on `main` launches for ever and never waits. */
  datatype RunEnd = Waited | Aborted(failure: Failure) | Endless(index: nat)

  /** The shared counter after n launches: each launch first resets a
      counter above the threshold to 0 (and sleeps), then adds one. */
  function CountAfter(n: nat): (c: nat)
    ensures n > 0 ==> 1 <= c <= Threshold + 1
    decreases n
  {
    if n == 0 then 0
    else
      var before := CountAfter(n - 1);
      if before > Threshold then 1 else before + 1
  }

  /** Whether the launcher sleeps right after launch k (counted from 0):
      after the 202nd launch, then after every 201st launch. */
  predicate PausesAfter(k: nat)
  {
    k > 0 && k % 201 == 0
  }

  /** The counter runs through 1..201 over and over. */
  lemma {:induction false} CountClosedForm(n: nat)
    ensures CountAfter(n) == if n == 0 then 0 else (n - 1) % 201 + 1
    decreases n
  {
    if n > 1 {
      CountClosedForm(n - 1);
      ModStep(n - 2);
    }
  }

  /** The launcher sleeps before launch n + 1 exactly when PausesAfter(n). */
  lemma CountStep(n: nat)
    ensures (CountAfter(n) > Threshold) == PausesAfter(n)
  {
    CountClosedForm(n);
    if n > 0 {
      ModStep(n - 1);
    }
  }

  /** Counting modulo 201. */
  lemma ModStep(m: nat)
    ensures (m + 1) % 201 == if m % 201 == 200 then 0 else m % 201 + 1
  {
    var q, r := m / 201, m % 201;
    assert m == 201 * q + r;
    if r == 200 {
      assert m + 1 == 201 * (q + 1);
    } else {
      assert m + 1 == 201 * q + (r + 1);
    }
  }

  /** The launches of addrs in order, the first being launch number base. */
  function Launched(addrs: seq<string>, base: nat): (ls: seq<Launch>)
    ensures |ls| == |addrs|
    ensures forall k :: 0 <= k < |ls| ==> ls[k] == Launch(addrs[k], PausesAfter(base + k))
  {
    seq(|addrs|, k requires 0 <= k < |addrs| => Launch(addrs[k], PausesAfter(base + k)))
  }

  lemma LaunchedAppend(a: seq<string>, b: seq<string>, base: nat)
    ensures Launched(a + b, base) == Launched(a, base) + Launched(b, base + |a|)
  {
    var whole, left, right := Launched(a + b, base), Launched(a, base), Launched(b, base + |a|);
    forall k | 0 <= k < |whole|
      ensures whole[k] == (left + right)[k]
    {
      if k < |a| {
        assert (a + b)[k] == a[k];
      } else {
        assert (a + b)[k] == b[k - |a|];
        assert right[k - |a|] == Launch(b[k - |a|], PausesAfter(base + k));
      }
    }
    assert whole == left + right;
  }

  /** The launch loop of `main`: one launch per expanded address, in order,
      with the sleep after exactly the launches PausesAfter names; the
      run aborts at the first malformed item, after the launches of the
      items before it, and never ends at the first item whose loop index
      wraps. */
  method LaunchAll(spec: string) returns (launches: seq<Launch>, count: int, end: RunEnd)
    ensures var e := Targets(spec);
      |launches| == |e.addresses| &&
      (forall k :: 0 <= k < |launches| ==>
        launches[k].address == e.addresses[k] && (launches[k].pausedAfter <==> PausesAfter(k))) &&
      end == (if e.failure.None? then Waited
              else if e.failure.value.error == RangeNeverEnds then Endless(e.failure.value.index)
              else Aborted(e.failure.value))
    ensures count == CountAfter(|launches|)
    ensures |launches| > 0 ==> 1 <= count <= Threshold + 1
  {
    var ipList := Split(spec, ',');
    launches := [];
    count := 0;
    var idx := 0;
    ghost var done: seq<string> := [];
    assert ipList[..0] == [];
    while idx < |ipList|
      invariant 0 <= idx <= |ipList|
      invariant Expand(ipList[..idx]) == Expansion(done, None)
      invariant launches == Launched(done, 0)
      invariant count == CountAfter(|launches|)
    {
      ExpandSnoc(ipList, idx);
      CollectSnoc(Outcomes(ipList[..idx]), Outcome(ipList[idx]));
      var parsed := ParseItem(ipList[idx]);
      if parsed.Err? {
        assert Expand(ipList[..idx + 1]) == Expansion(done, Some(Failure(idx, parsed.error)));
        ExpandStops(ipList, idx + 1);
        end := Aborted(Failure(idx, parsed.error));
        return;
      }
      var item := parsed.value;
      if NeverEnds(item) {
        assert Expand(ipList[..idx + 1]) == Expansion(done, Some(Failure(idx, RangeNeverEnds)));
        ExpandStops(ipList, idx + 1);
        end := Endless(idx);
        return;
      }
      assert Expand(ipList[..idx + 1]) == Expansion(done + ItemAddresses(item), None);
      launches, count := LaunchRange(item, launches, count);
      LaunchedAppend(done, ItemAddresses(item), 0);
      done := done + ItemAddresses(item);
      idx := idx + 1;
    }
    assert ipList[..idx] == ipList;
    end := Waited;
  }

  /** The inner loop of `main` for one parsed item: launches `prefix.i` for
      i from start to end, in order, sleeping whenever the shared counter
      exceeds the threshold. */
  method LaunchRange(item: Item, launches0: seq<Launch>, count0: int) returns (launches: seq<Launch>, count: int)
    requires |item.netId| >= 3
    requires MinInt64 <= item.start <= MaxInt64 && item.end <= MaxInt64 && !NeverEnds(item)
    requires count0 == CountAfter(|launches0|)
    ensures launches == launches0 + Launched(ItemAddresses(item), |launches0|)
    ensures count == CountAfter(|launches|)
  {
    launches, count := launches0, count0;
    var i := item.start;
    RangeStart(item, launches0);
    while i <= item.end
      invariant item.end >= item.start ==> item.start <= i <= item.end + 1
      invariant item.end < item.start ==> i == item.start
      invariant MinInt64 <= i <= MaxInt64
      invariant launches == launches0 + Launched(ItemAddresses(item)[..i - item.start], |launches0|)
      invariant count == CountAfter(|launches|)
    {
      var ipAddr := Address(item, i);
      CountStep(|launches|);
      RangeStep(item, launches0, i - item.start, launches);
      var paused := count > Threshold;
      launches := launches + [Launch(ipAddr, paused)];
      if paused {
        count := 0;
      }
      count := count + 1;
      i := i + 1;
    }
    assert ItemAddresses(item)[..i - item.start] == ItemAddresses(item);
  }

  lemma RangeStart(item: Item, launches0: seq<Launch>)
    requires |item.netId| >= 3
    ensures launches0 == launches0 + Launched(ItemAddresses(item)[..0], |launches0|)
  {
    assert ItemAddresses(item)[..0] == [];
  }

  /** One more launch of the inner loop extends the launches by the next
      address of the item. */
  lemma RangeStep(item: Item, launches0: seq<Launch>, n: nat, launches: seq<Launch>)
    requires |item.netId| >= 3 && n < |ItemAddresses(item)|
    requires launches == launches0 + Launched(ItemAddresses(item)[..n], |launches0|)
    ensures launches + [Launch(Address(item, item.start + n), PausesAfter(|launches|))]
         == launches0 + Launched(ItemAddresses(item)[..n + 1], |launches0|)
  {
    var addrs := ItemAddresses(item);
    assert addrs[..n + 1] == addrs[..n] + [addrs[n]];
    LaunchedAppend(addrs[..n], [addrs[n]], |launches0|);
  }
}
