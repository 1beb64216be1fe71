/** Rendering of the values a scan receives (snmpScan.go, the Walk callback
    at lines 94-136 and the Get decoding at lines 150-178). */
module Render {
  import opened Results
  import opened GoText

  /** The dynamic type of a variable binding's value, as the type switches
      see it.  Null stands for nil (the Null, NoSuchObject, NoSuchInstance and
      EndOfMibView tags); Octets for []byte; Text for string (object
      identifiers, IP addresses); Int for int; Unsigned for uint, uint16,
      uint32 and uint64, which render alike; Other for any remaining type,
      with `shown` its default formatting and `typeName` the name of its
      type. */
  datatype Value =
    | Null
    | Octets(bytes: seq<byte>)
    | Text(text: string)
    | Int(i: int)
    | Unsigned(n: nat)
    | Other(shown: string, typeName: string)

  /** One variable binding: an object identifier and its value. */
  datatype Pdu = Pdu(name: string, value: Value)

  const DefaultOid: string := "1.3.6.1.2.1.1.1.0"
  const DefaultWalkRoot: string := "1.3.6"

  /** The subtree a walk starts from: the default object identifier of a
      Get is replaced by "1.3.6"; any other is kept. */
  function WalkRoot(oid: string): (root: string)
    ensures oid == DefaultOid ==> root == DefaultWalkRoot
    ensures oid != DefaultOid ==> root == oid
    ensures root != DefaultOid
  {
    if oid == DefaultOid then DefaultWalkRoot else oid
  }

  /** Rewriting the walk root a second time changes nothing. */
  lemma WalkRootOnce(oid: string)
    ensures WalkRoot(WalkRoot(oid)) == WalkRoot(oid)
  {
  }

  // ---------------------------------------------------------------------
  // MAC addresses

  /** The text the MAC loop builds from a hex string: each digit upper-cased,
      with a colon before every even position but the first. */
  function MacText(hex: string): string
    decreases |hex|
  {
    if hex == [] then []
    else
      var i := |hex| - 1;
      MacText(hex[..i]) + (if i % 2 == 0 && i != 0 then ":" else "") + [UpperChar(hex[i])]
  }

  /** The MAC loop of the Walk callback. */
  method FormatMac(hex: string) returns (mac: string)
    ensures mac == MacText(hex)
  {
    mac := "";
    for i := 0 to |hex|
      invariant mac == MacText(hex[..i])
    {
      if i % 2 == 0 && i != 0 {
        mac := mac + ":";
      }
      mac := mac + [UpperChar(hex[i])];
      assert hex[..i + 1][..i] == hex[..i];
    }
    assert hex[..|hex|] == hex;
  }

  /** Every third character of the MAC text is a colon; the others are the
      hex digits in order, upper-cased.  Twelve digits give six pairs in
      seventeen characters. */
  lemma {:induction false} MacShape(hex: string)
    requires hex != []
    ensures |MacText(hex)| == |hex| + (|hex| - 1) / 2
    ensures forall j :: 0 <= j < |MacText(hex)| ==>
      MacText(hex)[j] == if j % 3 == 2 then ':' else UpperChar(hex[j - j / 3])
    decreases |hex|
  {
    var i := |hex| - 1;
    var mac := MacText(hex);
    if i == 0 {
      assert hex[..0] == [] && MacText(hex[..0]) == [];
      assert mac == [] + "" + [UpperChar(hex[0])];
    } else {
      var init := MacText(hex[..i]);
      MacShape(hex[..i]);
      var sep: string := if i % 2 == 0 then ":" else "";
      assert mac == init + sep + [UpperChar(hex[i])];
      MacPosition(i);
      assert |mac| == |hex| + (|hex| - 1) / 2 by {
        assert |mac| == i + (i - 1) / 2 + |sep| + 1;
      }
      forall j | 0 <= j < |mac|
        ensures mac[j] == if j % 3 == 2 then ':' else UpperChar(hex[j - j / 3])
      {
        if j < |init| {
          MacBelow(i, j);
          assert mac[j] == init[j];
          assert hex[..i][j - j / 3] == hex[j - j / 3];
        } else if i % 2 == 0 && j == |init| {
          assert mac[j] == ':';
        } else {
          assert j == |mac| - 1;
        }
      }
    }
  }

  /** Where the digit at position i >= 1 of the hex text lands: after the
      i + (i - 1) / 2 characters of the shorter text, behind a colon when i
      is even. */
  lemma MacPosition(i: nat)
    requires i >= 1
    ensures var n := i + (i - 1) / 2;
      && (i % 2 == 0 ==> n % 3 == 2 && (n + 1) % 3 != 2 && (n + 1) - (n + 1) / 3 == i)
      && (i % 2 == 1 ==> n % 3 != 2 && n - n / 3 == i)
      && n + (if i % 2 == 0 then 1 else 0) + 1 == (i + 1) + i / 2
  {
    var k := i / 2;
    if i % 2 == 0 {
      assert i == 2 * k && (i - 1) / 2 == k - 1;
    } else {
      assert i == 2 * k + 1 && (i - 1) / 2 == k;
    }
  }

  /** A position inside the text of the first i digits holds one of them. */
  lemma MacBelow(i: nat, j: nat)
    requires j < i + (i - 1) / 2
    ensures j - j / 3 < i
  {
    var q, r := j / 3, j % 3;
    assert j == 3 * q + r;
    var k := i / 2;
    if i % 2 == 0 {
      assert i == 2 * k && (i - 1) / 2 == k - 1;
    } else {
      assert i == 2 * k + 1 && (i - 1) / 2 == k;
    }
  }

  /** Removes every colon. */
  function DropColons(s: string): (r: string)
    ensures |r| <= |s|
    decreases |s|
  {
    if s == [] then []
    else DropColons(s[..|s| - 1]) + (if s[|s| - 1] == ':' then [] else [s[|s| - 1]])
  }

  lemma DropColonsSnoc(s: string, c: char)
    ensures DropColons(s + [c]) == DropColons(s) + (if c == ':' then [] else [c])
  {
    assert (s + [c])[..|s|] == s;
  }

  lemma UpperAllSnoc(s: string)
    requires s != []
    ensures UpperAll(s) == UpperAll(s[..|s| - 1]) + [UpperChar(s[|s| - 1])]
  {
  }

  /** Without its colons the MAC text is the hex string upper-cased. */
  lemma {:induction false} MacDigits(hex: string)
    requires IsLowerHex(hex)
    ensures DropColons(MacText(hex)) == UpperAll(hex)
    decreases |hex|
  {
    if hex != [] {
      var i := |hex| - 1;
      var init := MacText(hex[..i]);
      var sep: string := if i % 2 == 0 && i != 0 then ":" else "";
      var u := UpperChar(hex[i]);
      assert IsLowerHex(hex[..i]) by {
        forall k | 0 <= k < i ensures '0' <= hex[..i][k] <= '9' || 'a' <= hex[..i][k] <= 'f' {
          assert hex[..i][k] == hex[k];
        }
      }
      MacDigits(hex[..i]);
      assert u != ':' by {
        assert '0' <= hex[i] <= '9' || 'a' <= hex[i] <= 'f';
      }
      assert DropColons(init + sep) == DropColons(init) by {
        if sep == ":" {
          DropColonsSnoc(init, ':');
        } else {
          assert init + sep == init;
        }
      }
      calc {
        DropColons(MacText(hex));
        DropColons((init + sep) + [u]);
      == { DropColonsSnoc(init + sep, u); }
        DropColons(init + sep) + [u];
        UpperAll(hex[..i]) + [u];
      == { UpperAllSnoc(hex); }
        UpperAll(hex);
      }
    }
  }

  /** The MAC text of six bytes has seventeen characters and reads back, once
      its colons are dropped, as the same six bytes. */
  lemma MacRoundTrip(b: seq<byte>)
    requires |b| == 6
    ensures |MacText(HexEncode(b))| == 17
    ensures HexDecode(LowerAll(DropColons(MacText(HexEncode(b))))) == Some(b)
  {
    var hex := HexEncode(b);
    MacShape(hex);
    MacDigits(hex);
    assert LowerAll(UpperAll(hex)) == hex;
    HexRoundTrip(b);
  }

  /** The bytes 00 11 22 aa bb cc are shown as 00:11:22:AA:BB:CC. */
  lemma MacExample()
    ensures MacText("001122aabbcc") == "00:11:22:AA:BB:CC"
  {
    var hex := "001122aabbcc";
    var mac := MacText(hex);
    MacShape(hex);
    assert |mac| == 17;
    forall j | 0 <= j < 17 ensures mac[j] == "00:11:22:AA:BB:CC"[j] {
      if j % 3 == 2 {
        assert mac[j] == ':';
      } else {
        assert mac[j] == UpperChar(hex[j - j / 3]);
      }
    }
  }

  // ---------------------------------------------------------------------
  // Walk lines

  /** The text the Walk callback appends for one binding; None when the
      value is nil, where asking for the name of the value's type panics. */
  function WalkLine(pdu: Pdu): (line: Option<string>)
    ensures line.None? <==> pdu.value.Null?
    ensures line.Some? ==> |line.value| > 0 && line.value[|line.value| - 1] == '\n'
  {
    match pdu.value
    case Null => None
    case Octets(b) =>
      var hex := HexEncode(b);
      if |hex| == 12 then Some(pdu.name + ": " + MacText(hex) + "\n")
      else Some(pdu.name + ": " + BytesToText(b) + "\n")
    case Text(s) => Some(pdu.name + ": " + s + "\n")
    case Int(i) => Some(pdu.name + ": " + Itoa(i) + "\n")
    case Unsigned(n) => Some(pdu.name + ": " + Itoa(n) + "\n")
    case Other(shown, typeName) => Some("*" + pdu.name + ": " + shown + typeName + "\n")
  }

  /** A six-byte value is shown as a MAC address, which reads back as the
      bytes; any other byte string is shown as raw text. */
  lemma WalkBytesLine(name: string, b: seq<byte>)
    ensures |b| == 6 ==>
      var mac := MacText(HexEncode(b));
      WalkLine(Pdu(name, Octets(b))) == Some(name + ": " + mac + "\n")
      && |mac| == 17
      && HexDecode(LowerAll(DropColons(mac))) == Some(b)
    ensures |b| != 6 ==>
      WalkLine(Pdu(name, Octets(b))) == Some(name + ": " + BytesToText(b) + "\n")
  {
    if |b| == 6 {
      MacRoundTrip(b);
    }
  }

  /** Numbers are shown in decimal, and the decimal text reads back as the
      number; a value of an unrecognised type is marked with a star and
      followed by the name of its type. */
  lemma WalkNumberLine(name: string, v: Value)
    requires v.Int? || v.Unsigned? || v.Other?
    ensures v.Int? ==> WalkLine(Pdu(name, v)) == Some(name + ": " + Itoa(v.i) + "\n")
    ensures v.Unsigned? ==> WalkLine(Pdu(name, v)) == Some(name + ": " + Itoa(v.n) + "\n")
    ensures v.Int? && MinInt64 <= v.i <= MaxInt64 ==> Atoi(Itoa(v.i)) == Some(v.i)
    ensures v.Unsigned? && v.n <= MaxInt64 ==> Atoi(Itoa(v.n)) == Some(v.n)
    ensures v.Other? ==> WalkLine(Pdu(name, v)).value[0] == '*'
  {
    if v.Int? && MinInt64 <= v.i <= MaxInt64 {
      AtoiItoa(v.i);
    }
    if v.Unsigned? && v.n <= MaxInt64 {
      AtoiItoa(v.n);
    }
  }

  // ---------------------------------------------------------------------
  // Get rows

  /** The row a Get keeps for one value: none for nil and for a byte string
      that is valid hex text; the text itself for a string or another byte
      string; the decimal form of an int; a fixed marker for anything else. */
  function GetRow(v: Value): Option<string>
  {
    match v
    case Null => None
    case Text(s) => Some(s)
    case Octets(b) => if HexDecode(BytesToText(b)).Some? then None else Some(BytesToText(b))
    case Int(i) => Some(Itoa(i))
    case Unsigned(n) => Some("Unhandled SNMP output")
    case Other(shown, _) => Some("Unhandled SNMP output")
  }

  /** What a Get prints at once for one value: the re-encoded hex of a byte
      string that decodes as hex, and the default formatting of a value of
      an unhandled type. */
  function GetEcho(v: Value): Option<string>
  {
    match v
    case Octets(b) =>
      (match HexDecode(BytesToText(b))
       case Some(d) => Some(HexEncode(d))
       case None => None)
    case Unsigned(n) => Some(Itoa(n))
    case Other(shown, _) => Some(shown)
    case _ => None
  }

  /** A byte string is either kept as a row or echoed, never both: it is
      echoed, in lower case, exactly when it is hex text. */
  lemma GetBytes(b: seq<byte>)
    ensures GetRow(Octets(b)).None? <==> IsHexText(BytesToText(b))
    ensures GetEcho(Octets(b)).Some? <==> IsHexText(BytesToText(b))
    ensures IsHexText(BytesToText(b)) ==> GetEcho(Octets(b)) == Some(LowerAll(BytesToText(b)))
    ensures !IsHexText(BytesToText(b)) ==> GetRow(Octets(b)) == Some(BytesToText(b))
  {
    HexDecodeAccepts(BytesToText(b));
    if IsHexText(BytesToText(b)) {
      HexReencode(BytesToText(b));
    }
  }

  /** Only nil values and hex byte strings are left out of the rows, and a
      value of an unhandled type is both echoed and marked. */
  lemma GetRowKinds(v: Value)
    ensures GetRow(v).None? ==> v.Null? || v.Octets?
    ensures v.Null? ==> GetRow(v).None? && GetEcho(v).None?
    ensures v.Unsigned? || v.Other? ==> GetRow(v) == Some("Unhandled SNMP output") && GetEcho(v).Some?
    ensures v.Text? || v.Int? ==> GetEcho(v).None?
  {
  }

  function OptionList(o: Option<string>): seq<string>
  {
    if o.Some? then [o.value] else []
  }

  /** The rows a Get keeps, in the order of the values. */
  function Rows(vs: seq<Value>): seq<string>
    decreases |vs|
  {
    if vs == [] then [] else Rows(vs[..|vs| - 1]) + OptionList(GetRow(vs[|vs| - 1]))
  }

  /** The lines a Get prints while decoding, in the order of the values. */
  function Echoes(vs: seq<Value>): seq<string>
    decreases |vs|
  {
    if vs == [] then [] else Echoes(vs[..|vs| - 1]) + OptionList(GetEcho(vs[|vs| - 1]))
  }

  /** The decoding loop of a Get. */
  method DecodeRows(vs: seq<Value>) returns (rows: seq<string>, echoes: seq<string>)
    ensures rows == Rows(vs) && echoes == Echoes(vs)
  {
    rows := [];
    echoes := [];
    for k := 0 to |vs|
      invariant rows == Rows(vs[..k]) && echoes == Echoes(vs[..k])
    {
      assert vs[..k + 1][..k] == vs[..k];
      var v := vs[k];
      match v {
        case Null =>
        case Text(s) =>
          rows := rows + [s];
        case Octets(b) =>
          var decoded := HexDecode(BytesToText(b));
          if decoded.None? {
            rows := rows + [BytesToText(b)];
          } else {
            echoes := echoes + [HexEncode(decoded.value)];
          }
        case Int(i) =>
          rows := rows + [Itoa(i)];
        case Unsigned(n) =>
          echoes := echoes + [Itoa(n)];
          rows := rows + ["Unhandled SNMP output"];
        case Other(shown, _) =>
          echoes := echoes + [shown];
          rows := rows + ["Unhandled SNMP output"];
      }
    }
    assert vs[..|vs|] == vs;
  }

  /** Decoding a concatenation keeps the rows of each part, in order. */
  lemma {:induction false} RowsAppend(a: seq<Value>, b: seq<Value>)
    ensures Rows(a + b) == Rows(a) + Rows(b)
    decreases |b|
  {
    if b != [] {
      var n := |b| - 1;
      RowsAppend(a, b[..n]);
      assert (a + b)[..|a + b| - 1] == a + b[..n];
      assert (a + b)[|a + b| - 1] == b[n];
      assert Rows(a + b) == Rows(a + b[..n]) + OptionList(GetRow(b[n]));
      assert Rows(b) == Rows(b[..n]) + OptionList(GetRow(b[n]));
    } else {
      assert a + b == a;
    }
  }

  /** At most one row per value, and exactly one per value when every value
      yields a row. */
  lemma {:induction false} RowsCount(vs: seq<Value>)
    ensures |Rows(vs)| <= |vs|
    ensures (forall i :: 0 <= i < |vs| ==> GetRow(vs[i]).Some?) ==> |Rows(vs)| == |vs|
    ensures |Rows(vs)| == |vs| ==> forall i :: 0 <= i < |vs| ==> GetRow(vs[i]).Some?
    decreases |vs|
  {
    if vs != [] {
      var n := |vs| - 1;
      var init := vs[..n];
      RowsCount(init);
      if forall i :: 0 <= i < |vs| ==> GetRow(vs[i]).Some? {
        assert forall i :: 0 <= i < n ==> GetRow(init[i]).Some? by {
          forall i | 0 <= i < n ensures GetRow(init[i]).Some? {
            assert init[i] == vs[i];
          }
        }
      }
      if |Rows(vs)| == |vs| {
        assert GetRow(vs[n]).Some?;
        forall i | 0 <= i < |vs| ensures GetRow(vs[i]).Some? {
          if i < n {
            assert init[i] == vs[i];
          }
        }
      }
    }
  }

  /** The result line of a Get: a single row is printed alone; otherwise the
      target, the rows and the requested identifiers, each list joined by
      ":::" inside brackets. */
  function GetLine(target: string, rows: seq<string>, oids: seq<string>): (line: string)
    ensures |rows| == 1 ==> line == rows[0]
    ensures |rows| != 1 ==> line == target + ",[" + Join(rows, ":::") + "],[" + Join(oids, ":::") + "]"
    ensures |rows| != 1 ==> |line| > |target| + 2 && line[..|target| + 2] == target + ",[" && line[|line| - 1] == ']'
  {
    if |rows| == 1 then rows[0]
    else target + ",[" + Join(rows, ":::") + "],[" + Join(oids, ":::") + "]"
  }

  /** A Get whose values all decode to nothing prints empty brackets. */
  lemma GetLineEmpty(target: string, o1: string)
    ensures GetLine(target, [], [o1]) == target + ",[" + "" + "],[" + o1 + "]"
  {
  }

  /** Two rows for two identifiers are joined pairwise. */
  lemma GetLinePair(target: string, r1: string, r2: string, o1: string, o2: string)
    ensures GetLine(target, [r1, r2], [o1, o2])
         == target + ",[" + (r1 + ":::" + r2) + "],[" + (o1 + ":::" + o2) + "]"
  {
    JoinPair(r1, r2);
    JoinPair(o1, o2);
  }

  lemma JoinPair(x: string, y: string)
    ensures Join([x, y], ":::") == x + ":::" + y
  {
    assert [x, y][1..] == [y];
  }
}
