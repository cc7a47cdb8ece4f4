/**
 * The multicast client's run-parameter reader (src/client.cpp): a line-based
 * extractor for "<name>value</name>" without an XML parser, and the loop in
 * main() that applies it to every line of the configuration file.
 */
module Client {
  import opened Wrappers
  import opened Strings

  function StartTag(name: string): string { "<" + name + ">" }

  function EndTag(name: string): string { "</" + name + ">" }

  /**
   * A string value written between quotation marks loses them: only a value of
   * at least three characters that starts and ends with '"' is cut.
   */
  function StripQuotes(v: string): (r: string)
    ensures v != [] ==> r != []
    ensures |r| <= |v|
  {
    if |v| >= 3 && v[0] == '"' && v[|v| - 1] == '"' then v[1..|v| - 1] else v
  }

  /**
   * extract_param_from_xml_line: None is the `false` return (the value string is
   * then always empty), Some(v) the `true` return with value string v.
   */
  function ExtractParamFromXmlLine(line: string, name: string): (r: Option<string>)
    ensures r.Some? ==> r.value != []
  {
    match Find(line, StartTag(name))
    case None => None
    case Some(found) =>
      var aux := line[found..];
      match Find(aux, ">")
      case None => None
      case Some(close) =>
        var rest := aux[close + 1..];
        match Find(rest, EndTag(name))
        case None => None
        case Some(endFound) =>
          var value := rest[..endFound];
          if value == [] then None else Some(StripQuotes(value))
  }

  /** Without the start tag the result is false (and the value empty). */
  lemma NoStartTag(line: string, name: string)
    requires forall k :: !OccursAt(line, StartTag(name), k)
    ensures ExtractParamFromXmlLine(line, name) == None
  {
    assert Find(line, StartTag(name)) == None;
  }

  /** When the name holds no '>', the start tag's first '>' is its last character. */
  lemma {:induction false} StartTagClose(line: string, name: string, f: nat)
    requires '>' !in name
    requires OccursAt(line, StartTag(name), f)
    ensures Find(line[f..], ">") == Some(|name| + 1)
  {
    var aux := line[f..];
    var st := StartTag(name);
    assert aux[..|st|] == st;
    forall k | 0 <= k < |name| + 1
      ensures !OccursAt(aux, ">", k)
    {
      assert aux[k] == st[k];
      if k > 0 {
        assert st[k] == name[k - 1];
      }
    }
    assert aux[|name| + 1..|name| + 2] == [st[|name| + 1]];
    FindIsFirst(aux, ">", |name| + 1);
  }

  /**
   * The value is the text between the end of the first start tag and the first
   * end tag after it; an empty value reads as absent.
   */
  lemma {:induction false} ValueBetweenTags(line: string, name: string, f: nat, e: nat)
    requires '>' !in name
    requires IsFirstFrom(line, StartTag(name), 0, f)
    requires IsFirstFrom(line, EndTag(name), f + |StartTag(name)|, e)
    ensures ExtractParamFromXmlLine(line, name)
         == if e == f + |StartTag(name)| then None
            else Some(StripQuotes(line[f + |StartTag(name)|..e]))
  {
    var st, et := StartTag(name), EndTag(name);
    var b := f + |st|;
    FindIsFirst(line, st, f);
    assert Find(line, st) == Some(f);
    var aux := line[f..];
    StartTagClose(line, name, f);
    assert Find(aux, ">") == Some(|name| + 1);
    var rest := aux[|name| + 2..];
    assert rest == line[b..];
    FindInSuffix(line, et, b, e - b);
    assert Find(rest, et) == Some(e - b);
    var value := rest[..e - b];
    assert value == line[b..e];
    assert value == [] <==> e == b;
    assert ExtractParamFromXmlLine(line, name) == if value == [] then None else Some(StripQuotes(value));
  }

  /** A start tag without a following end tag gives false. */
  lemma {:induction false} MissingEndTag(line: string, name: string, f: nat)
    requires '>' !in name
    requires IsFirstFrom(line, StartTag(name), 0, f)
    requires forall k :: f + |StartTag(name)| <= k ==> !OccursAt(line, EndTag(name), k)
    ensures ExtractParamFromXmlLine(line, name) == None
  {
    var st := StartTag(name);
    FindIsFirst(line, st, f);
    StartTagClose(line, name, f);
    assert line[f..][|name| + 2..] == line[f + |st|..];
    FindInSuffixNone(line, EndTag(name), f + |st|);
  }

  /** The line a configuration file holds for one parameter. */
  function XmlLine(name: string, value: string): string {
    StartTag(name) + value + EndTag(name)
  }

  /** Writing a parameter line and extracting it gives the value back (quotes cut). */
  lemma {:induction false} XmlLineRoundTrip(name: string, value: string)
    requires '>' !in name && '<' !in value && value != []
    ensures ExtractParamFromXmlLine(XmlLine(name, value), name) == Some(StripQuotes(value))
  {
    var line := XmlLine(name, value);
    var st, et := StartTag(name), EndTag(name);
    assert line[0..|st|] == st;
    var e := |st| + |value|;
    assert line[e..e + |et|] == et;
    forall k | |st| <= k < e
      ensures !OccursAt(line, et, k)
    {
      assert line[k] == value[k - |st|];
      if k + |et| <= |line| {
        assert line[k..k + |et|][0] == line[k];
      }
    }
    ValueBetweenTags(line, name, 0, e);
  }

  /** Quoting a non-empty string and cutting the quotes again is the identity. */
  lemma QuoteRoundTrip(s: string)
    requires s != []
    ensures StripQuotes("\"" + s + "\"") == s
  {
    var q := "\"" + s + "\"";
    assert q[1..|q| - 1] == s;
  }

  /** A value of fewer than three characters is kept as it is, so a lone `"` and `""` stay. */
  lemma ShortValueKept(v: string)
    requires |v| < 3
    ensures StripQuotes(v) == v
    ensures StripQuotes("\"") == "\"" && StripQuotes("\"\"") == "\"\""
  {
  }

  /** A value that does not both start and end with a quote is kept as it is. */
  lemma UnquotedKept(v: string)
    requires v == [] || v[0] != '"' || v[|v| - 1] != '"'
    ensures StripQuotes(v) == v
  {
  }

  // ---------------------------------------------------------------------------
  // atoi and the (short) cast used for the port

  predicate IsSpace(c: char) {
    c == ' ' || c == '\t' || c == '\n' || c == '\r' || c == '\U{C}' || c == '\U{B}'
  }

  predicate IsDigit(c: char) { '0' <= c <= '9' }

  function SkipSpaces(s: string): (r: string)
    ensures |r| <= |s| && r == s[|s| - |r|..]
    ensures r != [] ==> !IsSpace(r[0])
  {
    if s != [] && IsSpace(s[0]) then SkipSpaces(s[1..]) else s
  }

  /** The longest prefix of decimal digits. */
  function LeadingDigits(s: string): (r: string)
    ensures r <= s
    ensures forall i :: 0 <= i < |r| ==> IsDigit(r[i])
    ensures |r| < |s| ==> !IsDigit(s[|r|])
  {
    if s != [] && IsDigit(s[0]) then [s[0]] + LeadingDigits(s[1..]) else []
  }

  function DigitValue(c: char): (d: nat)
    requires IsDigit(c)
    ensures d < 10
  {
    c as int - '0' as int
  }

  function DigitsValue(ds: string): nat
    requires forall i :: 0 <= i < |ds| ==> IsDigit(ds[i])
  {
    if ds == [] then 0
    else 10 * DigitsValue(ds[..|ds| - 1]) + DigitValue(ds[|ds| - 1])
  }

  /** C atoi: leading white space, an optional sign, then as many digits as there are. */
  function Atoi(s: string): int {
    var t := SkipSpaces(s);
    if t != [] && (t[0] == '-' || t[0] == '+') then
      var v: int := DigitsValue(LeadingDigits(t[1..]));
      if t[0] == '-' then -v else v
    else
      DigitsValue(LeadingDigits(t))
  }

  function DigitChar(d: nat): char
    requires d < 10
  {
    ('0' as int + d) as char
  }

  /** The decimal representation printf("%d") would give. */
  function NatToDecimal(n: nat): (r: string)
    ensures r != [] && forall i :: 0 <= i < |r| ==> IsDigit(r[i])
  {
    if n < 10 then [DigitChar(n)] else NatToDecimal(n / 10) + [DigitChar(n % 10)]
  }

  function IntToDecimal(n: int): string {
    if n < 0 then "-" + NatToDecimal(-n) else NatToDecimal(n)
  }

  lemma {:induction false} DigitsValueOfDecimal(n: nat)
    ensures DigitsValue(NatToDecimal(n)) == n
  {
    if n >= 10 {
      var r := NatToDecimal(n);
      assert r[..|r| - 1] == NatToDecimal(n / 10);
      DigitsValueOfDecimal(n / 10);
    }
  }

  lemma {:induction false} AllDigitsAreLeading(s: string)
    requires forall i :: 0 <= i < |s| ==> IsDigit(s[i])
    ensures LeadingDigits(s) == s
  {
    if s != [] {
      AllDigitsAreLeading(s[1..]);
    }
  }

  /** atoi of a non-empty run of digits is their value. */
  lemma DigitsAtoi(d: string)
    requires d != [] && forall i :: 0 <= i < |d| ==> IsDigit(d[i])
    ensures Atoi(d) == DigitsValue(d)
  {
    assert d[0] != '-' && d[0] != '+' && !IsSpace(d[0]);
    NoLeadingSpace(d);
    AllDigitsAreLeading(d);
  }

  /** atoi of a minus sign followed by digits is the negated value. */
  lemma NegatedDigitsAtoi(d: string)
    requires forall i :: 0 <= i < |d| ==> IsDigit(d[i])
    ensures Atoi("-" + d) == -(DigitsValue(d) as int)
  {
    var t := "-" + d;
    assert t[0] == '-' && t[1..] == d;
    NoLeadingSpace(t);
    AllDigitsAreLeading(d);
  }

  lemma NoLeadingSpace(s: string)
    requires s != [] && !IsSpace(s[0])
    ensures SkipSpaces(s) == s
  {
  }

  /** atoi reads back every integer that is printed in decimal. */
  lemma AtoiRoundTrip(n: int)
    ensures Atoi(IntToDecimal(n)) == n
  {
    if n < 0 {
      NegatedDigitsAtoi(NatToDecimal(-n));
      DigitsValueOfDecimal(-n);
    } else {
      DigitsAtoi(NatToDecimal(n));
      DigitsValueOfDecimal(n);
    }
  }

  /** The two's-complement conversion of an int to a 16-bit short. */
  function ToShort(n: int): (r: int)
    ensures -32768 <= r < 32768
    ensures (r - n) % 65536 == 0
  {
    (n + 32768) % 65536 - 32768
  }

  lemma ShortInRangeUnchanged(n: int)
    requires -32768 <= n < 32768
    ensures ToShort(n) == n
  {
  }

  // ---------------------------------------------------------------------------
  // The per-line loop of main()

  /** The last present value of a sequence of per-line results. */
  function LastValue(values: seq<Option<string>>): Option<string> {
    if values == [] then None
    else if values[|values| - 1].Some? then values[|values| - 1]
    else LastValue(values[..|values| - 1])
  }

  /** No value at all exactly when no result is present; otherwise the value of the last present result. */
  lemma {:induction false} LastValueMeaning(values: seq<Option<string>>)
    ensures LastValue(values).None? <==> forall i :: 0 <= i < |values| ==> values[i].None?
    ensures LastValue(values).Some? ==>
              exists i :: 0 <= i < |values| && values[i] == LastValue(values)
                          && forall j :: i < j < |values| ==> values[j].None?
  {
    if values != [] {
      var n := |values| - 1;
      var front := values[..n];
      if values[n].Some? {
        assert values[n] == LastValue(values);
      } else {
        LastValueMeaning(front);
        forall i | 0 <= i < n
          ensures values[i] == front[i]
        {
        }
        if LastValue(front).Some? {
          var i :| 0 <= i < |front| && front[i] == LastValue(front)
                   && forall j :: i < j < |front| ==> front[j].None?;
          forall j | i < j < |values|
            ensures values[j].None?
          {
            if j < n {
              assert values[j] == front[j];
            }
          }
          assert values[i] == LastValue(values);
        }
      }
    }
  }

  /** The result of extracting one parameter from every line. */
  function ExtractAll(lines: seq<string>, name: string): (r: seq<Option<string>>)
    ensures |r| == |lines|
  {
    seq(|lines|, i requires 0 <= i < |lines| => ExtractParamFromXmlLine(lines[i], name))
  }

  /**
   * The value of the last line that holds the parameter: later lines override
   * earlier ones.
   */
  function LastParam(lines: seq<string>, name: string): Option<string> {
    LastValue(ExtractAll(lines, name))
  }

  /** A matching line overrides whatever the lines before it held. */
  lemma LaterLineOverrides(lines: seq<string>, line: string, name: string, v: string)
    requires ExtractParamFromXmlLine(line, name) == Some(v)
    ensures LastParam(lines + [line], name) == Some(v)
  {
    assert ExtractAll(lines + [line], name)[|lines|] == Some(v);
  }

  /** A line without the parameter keeps the value from the lines before it. */
  lemma OtherLineKeeps(lines: seq<string>, line: string, name: string)
    requires ExtractParamFromXmlLine(line, name) == None
    ensures LastParam(lines + [line], name) == LastParam(lines, name)
  {
    var all := ExtractAll(lines + [line], name);
    assert all[..|lines|] == ExtractAll(lines, name);
  }

  datatype RunParameters = RunParameters(
    multicastPort: int,
    doOutputDebug: int,
    clientUpdateIntervalMs: int,
    multicastAddress: string,
    listenAddress: string)

  const PortName := "multicast_port"
  const DebugName := "do_output_debug"
  const IntervalName := "client_update_intervall_ms"
  const MulticastName := "multicast_adress"
  const ListenName := "listen_address"

  /** The per-line results of a prefix of the lines are a prefix of the per-line results. */
  lemma ExtractAllPrefix(lines: seq<string>, name: string, i: nat)
    requires i <= |lines|
    ensures ExtractAll(lines[..i], name) == ExtractAll(lines, name)[..i]
  {
  }

  /** One more result: a present value takes over, an absent one keeps the last value. */
  lemma LastValueStep(values: seq<Option<string>>, i: nat)
    requires i < |values|
    ensures LastValue(values[..i + 1]) == if values[i].Some? then values[i] else LastValue(values[..i])
  {
    assert values[..i + 1][..i] == values[..i];
  }

  /**
   * One call of extract_param_from_xml_line on line i, and what it does to the
   * last value seen in lines[..i].
   */
  method ReadParam(lines: seq<string>, i: nat, name: string, last: Option<string>) returns (next: Option<string>)
    requires i < |lines|
    requires last == LastParam(lines[..i], name)
    ensures next == LastParam(lines[..i + 1], name)
  {
    ghost var all := ExtractAll(lines, name);
    ExtractAllPrefix(lines, name, i);
    ExtractAllPrefix(lines, name, i + 1);
    LastValueStep(all, i);
    var value := ExtractParamFromXmlLine(lines[i], name);
    assert value == all[i];
    next := if value.Some? then value else last;
  }

  /** The parameters as main() holds them after its loop. */
  function ToRunParameters(port: Option<string>, debug: Option<string>, interval: Option<string>,
                           multicast: Option<string>, listen: Option<string>): RunParameters
  {
    RunParameters(
      match port case None => -1 case Some(v) => ToShort(Atoi(v)),
      match debug case None => -1 case Some(v) => Atoi(v),
      match interval case None => -1 case Some(v) => Atoi(v),
      multicast.GetOr(""),
      listen.GetOr(""))
  }

  function Parameters(lines: seq<string>): RunParameters {
    ToRunParameters(LastParam(lines, PortName), LastParam(lines, DebugName), LastParam(lines, IntervalName),
                    LastParam(lines, MulticastName), LastParam(lines, ListenName))
  }

  /** The loop of main() over the lines of the run-parameter file, and its completeness check. */
  method ReadRunParameters(lines: seq<string>) returns (p: RunParameters, ok: bool, doDebugging: bool)
    ensures p == Parameters(lines)
    ensures ok <==> p.multicastPort != -1 && p.doOutputDebug != -1 && p.clientUpdateIntervalMs != -1
                    && p.multicastAddress != [] && p.listenAddress != []
    ensures doDebugging == (p.doOutputDebug != 0)
  {
    var port, debug, interval, multicast, listen := None, None, None, None, None;
    var i := 0;
    while i < |lines|
      invariant 0 <= i <= |lines|
      invariant port == LastParam(lines[..i], PortName)
      invariant debug == LastParam(lines[..i], DebugName)
      invariant interval == LastParam(lines[..i], IntervalName)
      invariant multicast == LastParam(lines[..i], MulticastName)
      invariant listen == LastParam(lines[..i], ListenName)
    {
      port := ReadParam(lines, i, PortName, port);
      debug := ReadParam(lines, i, DebugName, debug);
      interval := ReadParam(lines, i, IntervalName, interval);
      multicast := ReadParam(lines, i, MulticastName, multicast);
      listen := ReadParam(lines, i, ListenName, listen);
      i := i + 1;
    }
    assert lines[..i] == lines;
    p := ToRunParameters(port, debug, interval, multicast, listen);
    ok := p.multicastPort != -1 && p.doOutputDebug != -1 && p.clientUpdateIntervalMs != -1
          && p.multicastAddress != [] && p.listenAddress != [];
    doDebugging := p.doOutputDebug != 0;
  }
}
