/**
 * How MonitorMetrics derives, from the object name of an MBean, the label
 * that identifies the monitored instance and the class/method tags of a REST
 * endpoint (MonitorMetrics.java, lines 117-205). Everything here is a
 * function of the object name; the class in MonitorMetrics.dfy computes the
 * same values with loops and caches the label.
 */
module MBeanLabel {
  import opened Wrappers
  import opened JavaString

  // ---------------------------------------------------------------------
  // The four helpers of getMBeanStatsString
  // ---------------------------------------------------------------------

  /** The characters the name label keeps: [a-zA-Z0-9._]. */
  predicate IsNameChar(ch: char)
  {
    'a' <= ch <= 'z' || 'A' <= ch <= 'Z' || '0' <= ch <= '9' || ch == '.' || ch == '_'
  }

  /** replaceAll("[^a-zA-Z0-9._]", "_"): one underscore per code point outside the class. */
  function Sanitize(s: string): (r: string)
    ensures |r| == |s|
    decreases |s|
  {
    if s == [] then [] else [if IsNameChar(s[0]) then s[0] else '_'] + Sanitize(s[1..])
  }

  /** Sanitising keeps each character of the class and makes every other one '_'. */
  lemma {:induction false} SanitizePointwise(s: string)
    ensures forall i :: 0 <= i < |s| ==> Sanitize(s)[i] == (if IsNameChar(s[i]) then s[i] else '_')
    decreases |s|
  {
    if s != [] {
      SanitizePointwise(s[1..]);
      assert forall i :: 1 <= i < |s| ==> Sanitize(s)[i] == Sanitize(s[1..])[i - 1] && s[i] == s[1..][i - 1];
    }
  }

  /** replaceAll("\"", "") */
  function Unquote(s: string): string
  {
    Replace(s, "\"", "")
  }

  /** getMBeanStatsName: the value after the first '=', with everything outside [a-zA-Z0-9._] made '_'. */
  function StatsName(nameStr: string): Result<string, JavaException>
  {
    var mbeanName :- Element(Split(nameStr, '='), 1);
    var noSpaces := Replace(mbeanName, " ", "_");
    var noSlashes := Replace(noSpaces, "/", "_");
    Success(Sanitize(noSlashes))
  }

  /** getMBeanStatsServiceName: the unquoted value after '=', from just after its first '}' on. */
  function ServiceName(serviceStr: string): Result<string, JavaException>
  {
    var value :- Element(Split(serviceStr, '='), 1);
    var unquoted := Unquote(value);
    Success(unquoted[IndexOf(unquoted, '}') + 1..])
  }

  /** The three replace calls of getMBeanStatsServiceURL. */
  function Dotted(url: string): string
  {
    Replace(Replace(Replace(url, "http://", ""), "https://", ""), "/", ".")
  }

  /** getMBeanStatsServiceURL: the unquoted value between its first '{' and its first '}', schemes dropped and '/' made '.'. */
  function ServiceURL(serviceStr: string): Result<string, JavaException>
  {
    var value :- Element(Split(serviceStr, '='), 1);
    BracedURL(Unquote(value))
  }

  /** The text between the first '{' and the first '}' of an unquoted value, schemes dropped and '/' made '.'. */
  function BracedURL(unquoted: string): Result<string, JavaException>
  {
    var url :- Substring(unquoted, IndexOf(unquoted, '{') + 1, IndexOf(unquoted, '}'));
    Success(Dotted(url))
  }

  /** getMBeanStatsPortName: the unquoted value after '='. */
  function PortName(portStr: string): Result<string, JavaException>
  {
    var value :- Element(Split(portStr, '='), 1);
    Success(Unquote(value))
  }

  /** The unquoted text between the first and the second '=' of a segment. */
  function UnquotedValue(s: string): string
    requires '=' in s
  {
    Unquote(SecondField(s, '='))
  }

  /** Removing the quotes leaves none. */
  lemma UnquoteHasNoQuote(s: string)
    ensures '"' !in Unquote(s)
  {
    ReplaceEliminates(s, '"', "");
  }

  /** Characters outside [a-zA-Z0-9._] sanitise to '_' whether or not they were first replaced by '_'. */
  lemma SanitizeAbsorbs(a: string, b: string)
    requires |a| == |b|
    requires forall i :: 0 <= i < |a| ==> b[i] == a[i] || (!IsNameChar(a[i]) && b[i] == '_')
    ensures Sanitize(b) == Sanitize(a)
  {
    SanitizePointwise(a);
    SanitizePointwise(b);
    assert forall i :: 0 <= i < |a| ==> Sanitize(b)[i] == Sanitize(a)[i];
  }

  /**
   * The name label is the text between the first and the second '=' of the
   * segment, of the same length, with every character outside [a-zA-Z0-9._]
   * (space and '/' included) made '_'; when nothing but '=' follows the
   * first '=', split("=")[1] throws.
   */
  lemma StatsNameSanitises(nameStr: string)
    ensures StatsName(nameStr).Success? <==> HasSecondField(nameStr, '=')
    ensures StatsName(nameStr).Failure? ==> StatsName(nameStr).error == ArrayIndexOutOfBounds
    ensures StatsName(nameStr).Success? ==>
      && StatsName(nameStr).value == Sanitize(SecondField(nameStr, '='))
      && |StatsName(nameStr).value| == |SecondField(nameStr, '=')|
      && forall i :: 0 <= i < |StatsName(nameStr).value| ==> IsNameChar(StatsName(nameStr).value[i])
  {
    SecondElement(nameStr, '=');
    if HasSecondField(nameStr, '=') {
      var f := SecondField(nameStr, '=');
      var a := Replace(f, [' '], ['_']);
      var b := Replace(a, ['/'], ['_']);
      ReplaceCharByChar(f, ' ', '_');
      ReplaceCharByChar(a, '/', '_');
      SanitizeAbsorbs(f, b);
      SanitizePointwise(f);
    }
  }

  /** The text after the first '}' keeps no quote the whole lacks. */
  lemma NoQuoteAfterBrace(u: string)
    requires '"' !in u
    ensures '"' !in u[IndexOf(u, '}') + 1..]
  {
    AbsentFromSuffix(u, IndexOf(u, '}') + 1, '"');
  }

  /** Without a '}' the text after the first '}' is the whole. */
  lemma WholeWithoutBrace(u: string)
    requires '}' !in u
    ensures u[IndexOf(u, '}') + 1..] == u
  {
    assert IndexOf(u, '}') + 1 == 0;
  }

  /** The service name is the unquoted value after its first '}', or all of it when there is none. */
  lemma ServiceNameShape(serviceStr: string)
    ensures ServiceName(serviceStr).Success? <==> HasSecondField(serviceStr, '=')
    ensures ServiceName(serviceStr).Failure? ==> ServiceName(serviceStr).error == ArrayIndexOutOfBounds
    ensures ServiceName(serviceStr).Success? ==>
      var u := UnquotedValue(serviceStr);
      && ServiceName(serviceStr).value == (if '}' in u then u[IndexOf(u, '}') + 1..] else u)
      && '"' !in ServiceName(serviceStr).value
  {
    SecondElement(serviceStr, '=');
    if HasSecondField(serviceStr, '=') {
      var u := UnquotedValue(serviceStr);
      UnquoteHasNoQuote(SecondField(serviceStr, '='));
      NoQuoteAfterBrace(u);
      if '}' !in u {
        WholeWithoutBrace(u);
      }
    }
  }

  /** Dotting leaves no '/', and adds no quote and no '}'. */
  lemma DottedChars(inner: string)
    requires '"' !in inner && '}' !in inner
    ensures '/' !in Dotted(inner) && '"' !in Dotted(inner) && '}' !in Dotted(inner)
  {
    var a := Replace(inner, "http://", "");
    var b := Replace(a, "https://", "");
    ReplaceAddsNothing(inner, "http://", "", '"');
    ReplaceAddsNothing(a, "https://", "", '"');
    ReplaceAddsNothing(b, ['/'], ['.'], '"');
    ReplaceAddsNothing(inner, "http://", "", '}');
    ReplaceAddsNothing(a, "https://", "", '}');
    ReplaceAddsNothing(b, ['/'], ['.'], '}');
    ReplaceEliminates(b, '/', ['.']);
  }

  /** The braces of a service value are in an order substring accepts: a '}', and no '{' after the first one. */
  predicate BracesInOrder(u: string)
  {
    '}' in u && ('{' in u ==> IndexOf(u, '{') < IndexOf(u, '}'))
  }

  /** substring(indexOf("{") + 1, indexOf("}")) succeeds exactly when the braces are in order. */
  lemma SubstringBraces(u: string)
    ensures Substring(u, IndexOf(u, '{') + 1, IndexOf(u, '}')).Success? <==> BracesInOrder(u)
    ensures Substring(u, IndexOf(u, '{') + 1, IndexOf(u, '}')).Failure? ==>
      Substring(u, IndexOf(u, '{') + 1, IndexOf(u, '}')).error == StringIndexOutOfBounds
  {
  }

  /**
   * The service URL exists when the unquoted value has a '}' not preceded
   * only by a later '{'; otherwise substring throws. It is the text strictly
   * between the first '{' and the first '}' (from the start when there is no
   * '{'), with the schemes removed and every '/' made '.'.
   */
  lemma ServiceURLShape(serviceStr: string)
    ensures ServiceURL(serviceStr).Success? <==>
      HasSecondField(serviceStr, '=') && BracesInOrder(UnquotedValue(serviceStr))
    ensures ServiceURL(serviceStr).Failure? ==>
      ServiceURL(serviceStr).error == (if HasSecondField(serviceStr, '=') then StringIndexOutOfBounds else ArrayIndexOutOfBounds)
    ensures ServiceURL(serviceStr).Success? ==>
      var u := UnquotedValue(serviceStr);
      var url := ServiceURL(serviceStr).value;
      && url == Dotted(u[IndexOf(u, '{') + 1..IndexOf(u, '}')])
      && '/' !in url && '"' !in url && '}' !in url
  {
    ServiceURLOfField(serviceStr);
    if HasSecondField(serviceStr, '=') {
      var u := UnquotedValue(serviceStr);
      assert ServiceURL(serviceStr) == BracedURL(u);
      assert '"' !in u by {
        UnquoteHasNoQuote(SecondField(serviceStr, '='));
      }
      BracedURLShape(u);
      if BracesInOrder(u) {
        var inner := u[IndexOf(u, '{') + 1..IndexOf(u, '}')];
        assert ServiceURL(serviceStr) == Success(Dotted(inner));
      }
    }
  }

  /** getMBeanStatsServiceURL throws at split("=")[1] without a second field, and otherwise takes the brace slice of the unquoted field. */
  lemma ServiceURLOfField(serviceStr: string)
    ensures ServiceURL(serviceStr) ==
      if HasSecondField(serviceStr, '=') then BracedURL(UnquotedValue(serviceStr)) else Failure(ArrayIndexOutOfBounds)
  {
    SecondElement(serviceStr, '=');
  }

  /** A slice of a quote-free value ending before its first '}' dots to text without '/', quote or '}'. */
  lemma DottedSlice(u: string, begin: int, end: int)
    requires 0 <= begin <= end <= |u| && '"' !in u && '}' !in u[..end]
    ensures var url := Dotted(u[begin..end]); '/' !in url && '"' !in url && '}' !in url
  {
    var inner := u[begin..end];
    assert '"' !in inner by {
      AbsentFromSlice(u, begin, end, '"');
    }
    assert '}' !in inner by {
      AbsentFromSlice(u[..end], begin, end, '}');
      assert u[..end][begin..end] == inner;
    }
    DottedChars(inner);
  }

  /** The brace slice of a value without quotes: it exists exactly when the braces are in order, and dots cleanly. */
  lemma BracedURLShape(u: string)
    requires '"' !in u
    ensures BracedURL(u).Success? <==> BracesInOrder(u)
    ensures BracedURL(u).Failure? ==> BracedURL(u).error == StringIndexOutOfBounds
    ensures BracedURL(u).Success? ==>
      var url := BracedURL(u).value;
      && url == Dotted(u[IndexOf(u, '{') + 1..IndexOf(u, '}')])
      && '/' !in url && '"' !in url && '}' !in url
  {
    var begin, end := IndexOf(u, '{') + 1, IndexOf(u, '}');
    assert Substring(u, begin, end).Success? <==> BracesInOrder(u) by {
      SubstringBraces(u);
    }
    if BracesInOrder(u) {
      assert BracedURL(u) == Success(Dotted(u[begin..end]));
      assert '}' !in u[..end];
      DottedSlice(u, begin, end);
    } else {
      assert BracedURL(u) == Failure(StringIndexOutOfBounds);
    }
  }

  /** The port name is the unquoted value after '='. */
  lemma PortNameShape(portStr: string)
    ensures PortName(portStr).Success? <==> HasSecondField(portStr, '=')
    ensures PortName(portStr).Failure? ==> PortName(portStr).error == ArrayIndexOutOfBounds
    ensures PortName(portStr).Success? ==>
      PortName(portStr).value == UnquotedValue(portStr) && '"' !in PortName(portStr).value
  {
    SecondElement(portStr, '=');
    if HasSecondField(portStr, '=') {
      UnquoteHasNoQuote(SecondField(portStr, '='));
    }
  }

  // ---------------------------------------------------------------------
  // The scan of getMBeanStatsString
  // ---------------------------------------------------------------------

  /** Which branch of the scan a trimmed segment takes. */
  datatype SegmentKind = ServiceSegment | PortSegment | NameSegment | OtherSegment

  /**
   * A segment of the object name after trim, with the branch it takes and
   * what each getter returns on it. The loop calls a getter only in the
   * branch that uses it; the getters are pure, so recording every result up
   * front changes nothing about what the loop computes.
   */
  datatype Segment = Segment(
    kind: SegmentKind,
    text: string,
    serviceName: Result<string, JavaException>,
    serviceURL: Result<string, JavaException>,
    portName: Result<string, JavaException>,
    statsName: Result<string, JavaException>)

  /** The tests of the loop body, in their order: service=, then port=, then name=. */
  function KindOf(seg: string): SegmentKind
  {
    if Contains(seg, "service=") then ServiceSegment
    else if Contains(seg, "port=") then PortSegment
    else if Contains(seg, "name=") then NameSegment
    else OtherSegment
  }

  /** Trims a raw segment and classifies it. */
  function Classify(raw: string): (r: Segment)
    ensures r.text == Trim(raw)
    ensures Parsed(r)
  {
    var seg := Trim(raw);
    Segment(KindOf(seg), seg, ServiceName(seg), ServiceURL(seg), PortName(seg), StatsName(seg))
  }

  /**
   * The branch a segment takes is decided on its trimmed text by the first
   * of the tests service=, port=, name= that holds; a segment holding
   * several of them takes the earliest branch.
   */
  lemma ClassifyKind(raw: string)
    ensures var r := Classify(raw);
      && (r.kind == ServiceSegment <==> Contains(Trim(raw), "service="))
      && (r.kind == PortSegment <==> !Contains(Trim(raw), "service=") && Contains(Trim(raw), "port="))
      && (r.kind == NameSegment <==>
            !Contains(Trim(raw), "service=") && !Contains(Trim(raw), "port=") && Contains(Trim(raw), "name="))
      && (r.kind == OtherSegment <==>
            !Contains(Trim(raw), "service=") && !Contains(Trim(raw), "port=") && !Contains(Trim(raw), "name="))
  {
  }

  /** Every segment of the split object name, classified. */
  function Classified(raws: seq<string>): (r: seq<Segment>)
    ensures |r| == |raws|
    ensures forall k :: 0 <= k < |raws| ==> r[k] == Classify(raws[k])
  {
    seq(|raws|, k requires 0 <= k < |raws| => Classify(raws[k]))
  }

  /** The local variables of the scan; None stands for null. */
  datatype ScanState = ScanState(
    serviceName: Option<string>,
    serviceURL: Option<string>,
    portName: Option<string>,
    mbeanObjName: Option<string>)

  const Unscanned := ScanState(None, None, None, None)

  /** One pass of the loop body; once the name is set the loop has broken off and later segments change nothing. */
  function ScanStep(st: ScanState, seg: Segment): Result<ScanState, JavaException>
  {
    if st.mbeanObjName.Some? then Success(st)
    else
      match seg.kind
      case ServiceSegment =>
        var name :- seg.serviceName;
        var url :- seg.serviceURL;
        Success(st.(serviceName := Some(name), serviceURL := Some(url)))
      case PortSegment =>
        var port :- seg.portName;
        Success(st.(portName := Some(port)))
      case NameSegment =>
        var name :- seg.statsName;
        Success(st.(mbeanObjName := Some(name)))
      case OtherSegment => Success(st)
  }

  /** The scan over the segments of the object name, one step per segment, stopping at the first exception. */
  function Scan(segs: seq<Segment>): Result<ScanState, JavaException>
    decreases |segs|
  {
    if segs == [] then Success(Unscanned)
    else
      var st :- Scan(segs[..|segs| - 1]);
      ScanStep(st, segs[|segs| - 1])
  }

  /** The label the StringBuffer receives from the scan's findings. */
  function Compose(st: ScanState): string
  {
    if st.serviceURL.Some? && st.serviceName.Some? && st.portName.Some? then
      st.serviceURL.value + "." + st.serviceName.value + "." + st.portName.value
    else if st.mbeanObjName.Some? then st.mbeanObjName.value
    else "unknown"
  }

  /** What getMBeanStatsString computes the first time it is called. */
  function StatsLabel(objectName: string): Result<string, JavaException>
  {
    var st :- Scan(Classified(Split(objectName, ',')));
    Success(Compose(st))
  }

  /** Scanning one more raw segment is one more scan step. */
  lemma ScanClassifiedSnoc(raws: seq<string>, i: int)
    requires 0 <= i < |raws|
    ensures Scan(Classified(raws[..i + 1])) ==
      (var st :- Scan(Classified(raws[..i])); ScanStep(st, Classify(raws[i])))
  {
    assert Classified(raws[..i + 1])[..i] == Classified(raws[..i]);
  }

  /** Classifying the segments before and from i classifies them all. */
  lemma ClassifiedSplitAt(raws: seq<string>, i: int)
    requires 0 <= i <= |raws|
    ensures Classified(raws[..i]) + Classified(raws[i..]) == Classified(raws)
  {
    var front := Classified(raws[..i]);
    var back := Classified(raws[i..]);
    var all := Classified(raws);
    forall k | 0 <= k < |all|
      ensures (front + back)[k] == all[k]
    {
      if k < i {
        assert raws[..i][k] == raws[k];
      } else {
        assert raws[i..][k - i] == raws[k];
      }
    }
  }

  /** Once the scan of a prefix has thrown or found the name, the scan of all segments ends the same way. */
  lemma ScanClassifiedStops(raws: seq<string>, i: int)
    requires 0 <= i <= |raws|
    requires Scan(Classified(raws[..i])).Failure? || Scan(Classified(raws[..i])).value.mbeanObjName.Some?
    ensures Scan(Classified(raws)) == Scan(Classified(raws[..i]))
  {
    ScanStopsAtName(Classified(raws[..i]), Classified(raws[i..]));
    ClassifiedSplitAt(raws, i);
  }

  /** The loop gets to segment j: no segment before it made the loop break. */
  predicate Reached(segs: seq<Segment>, j: int)
  {
    forall k :: 0 <= k < j && k < |segs| ==> segs[k].kind != NameSegment
  }

  /** Segment j is the last segment of the given kind that the loop gets to. */
  predicate LastReached(segs: seq<Segment>, j: int, kind: SegmentKind)
  {
    && 0 <= j < |segs| && Reached(segs, j) && segs[j].kind == kind
    && forall i :: j < i < |segs| && Reached(segs, i) ==> segs[i].kind != kind
  }

  /** A segment the scan fails on when it gets to it. */
  predicate Malformed(seg: Segment)
  {
    match seg.kind
    case ServiceSegment => seg.serviceName.Failure? || seg.serviceURL.Failure?
    case PortSegment => seg.portName.Failure?
    case NameSegment => seg.statsName.Failure?
    case OtherSegment => false
  }

  /** Once the scan has thrown or found the name segment, nothing after it is looked at. */
  lemma {:induction false} ScanStopsAtName(segs: seq<Segment>, tail: seq<Segment>)
    requires Scan(segs).Failure? || Scan(segs).value.mbeanObjName.Some?
    ensures Scan(segs + tail) == Scan(segs)
    decreases |tail|
  {
    if tail == [] {
      assert segs + tail == segs;
    } else {
      var front := tail[..|tail| - 1];
      ScanStopsAtName(segs, front);
      assert (segs + tail)[..|segs + tail| - 1] == segs + front;
    }
  }

  /** Segments with none of the three markers leave the scan where it started. */
  lemma {:induction false} ScanOthers(segs: seq<Segment>)
    requires forall k :: 0 <= k < |segs| ==> segs[k].kind == OtherSegment
    ensures Scan(segs) == Success(Unscanned)
    decreases |segs|
  {
    if segs != [] {
      ScanOthers(segs[..|segs| - 1]);
    }
  }

  /** Reached and LastReached on a sequence, in terms of the sequence without its last segment. */
  lemma ReachedSnoc(segs: seq<Segment>, kind: SegmentKind)
    requires |segs| > 0
    ensures var n := |segs| - 1;
      var init := segs[..n];
      && (Reached(segs, n) <==> forall k :: 0 <= k < n ==> init[k].kind != NameSegment)
      && (forall j :: 0 <= j < n ==> (Reached(segs, j) <==> Reached(init, j)))
      && (LastReached(segs, n, kind) <==> Reached(segs, n) && segs[n].kind == kind)
      && (forall j :: 0 <= j < n ==>
            (LastReached(segs, j, kind) <==>
               LastReached(init, j, kind) && !(Reached(segs, n) && segs[n].kind == kind)))
  {
  }

  /** One scan step sets the name exactly on a name= segment, and keeps it once set. */
  lemma ScanStepFlag(st: ScanState, seg: Segment)
    requires ScanStep(st, seg).Success?
    ensures ScanStep(st, seg).value.mbeanObjName.None? <==> st.mbeanObjName.None? && seg.kind != NameSegment
  {
  }

  /** The scan has found the name segment exactly when the object name has one. */
  lemma {:induction false} ScanStopFlag(segs: seq<Segment>)
    requires Scan(segs).Success?
    ensures Scan(segs).value.mbeanObjName.None? <==> forall k :: 0 <= k < |segs| ==> segs[k].kind != NameSegment
    decreases |segs|
  {
    if segs != [] {
      var n := |segs| - 1;
      var init := segs[..n];
      ScanStopFlag(init);
      ScanStepFlag(Scan(init).value, segs[n]);
      assert forall k :: 0 <= k < n ==> init[k] == segs[k];
    }
  }

  /** Before the name is found, a scan step throws exactly on a malformed segment. */
  lemma ScanStepFails(st: ScanState, seg: Segment)
    requires st.mbeanObjName.None?
    ensures ScanStep(st, seg).Failure? <==> Malformed(seg)
  {
  }

  /** The scan throws only when it gets to a segment it cannot parse. */
  lemma {:induction false} ScanFailsOnMalformed(segs: seq<Segment>)
    requires Scan(segs).Failure?
    ensures exists j :: 0 <= j < |segs| && Reached(segs, j) && Malformed(segs[j])
    decreases |segs|
  {
    var n := |segs| - 1;
    var init := segs[..n];
    ReachedSnoc(segs, OtherSegment);
    if Scan(init).Failure? {
      ScanFailsOnMalformed(init);
      var j :| 0 <= j < n && Reached(init, j) && Malformed(init[j]);
      assert segs[j] == init[j];
      assert Reached(segs, j) && Malformed(segs[j]);
    } else {
      var st := Scan(init).value;
      ScanStopFlag(init);
      assert forall k :: 0 <= k < n ==> segs[k] == init[k];
      ScanStepFails(st, segs[n]);
      assert Reached(segs, n) && Malformed(segs[n]);
    }
  }

  /** The scan throws when it gets to a segment it cannot parse. */
  lemma {:induction false} MalformedFailsScan(segs: seq<Segment>, j: int)
    requires 0 <= j < |segs| && Reached(segs, j) && Malformed(segs[j])
    ensures Scan(segs).Failure?
    decreases |segs|
  {
    var n := |segs| - 1;
    var init := segs[..n];
    ReachedSnoc(segs, OtherSegment);
    if j < n {
      assert segs[j] == init[j];
      MalformedFailsScan(init, j);
    } else if Scan(init).Success? {
      var st := Scan(init).value;
      ScanStopFlag(init);
      assert forall k :: 0 <= k < n ==> segs[k] == init[k];
      ScanStepFails(st, segs[n]);
    }
  }

  /** The scan throws exactly when it gets to a segment it cannot parse. */
  lemma ScanFailsIff(segs: seq<Segment>)
    ensures Scan(segs).Failure? <==> exists j :: 0 <= j < |segs| && Reached(segs, j) && Malformed(segs[j])
  {
    if Scan(segs).Failure? {
      ScanFailsOnMalformed(segs);
    }
    if j :| 0 <= j < |segs| && Reached(segs, j) && Malformed(segs[j]) {
      MalformedFailsScan(segs, j);
    }
  }

  /** The fields of the scan state, and the segment kind and parser each comes from. */
  datatype Field = ServiceNameField | ServiceURLField | PortField | NameField

  function FieldOf(st: ScanState, f: Field): Option<string>
  {
    match f
    case ServiceNameField => st.serviceName
    case ServiceURLField => st.serviceURL
    case PortField => st.portName
    case NameField => st.mbeanObjName
  }

  function FieldKind(f: Field): SegmentKind
  {
    match f
    case ServiceNameField => ServiceSegment
    case ServiceURLField => ServiceSegment
    case PortField => PortSegment
    case NameField => NameSegment
  }

  function ParseField(f: Field, seg: string): Result<string, JavaException>
  {
    match f
    case ServiceNameField => ServiceName(seg)
    case ServiceURLField => ServiceURL(seg)
    case PortField => PortName(seg)
    case NameField => StatsName(seg)
  }

  /** What a segment records for a field's getter. */
  function SegmentField(seg: Segment, f: Field): Result<string, JavaException>
  {
    match f
    case ServiceNameField => seg.serviceName
    case ServiceURLField => seg.serviceURL
    case PortField => seg.portName
    case NameField => seg.statsName
  }

  /** The results a segment records are those of the getters on its text. */
  predicate Parsed(seg: Segment)
  {
    && seg.serviceName == ServiceName(seg.text)
    && seg.serviceURL == ServiceURL(seg.text)
    && seg.portName == PortName(seg.text)
    && seg.statsName == StatsName(seg.text)
  }

  /** One scan step sets a field exactly on a segment of its kind, to what that segment parses to. */
  lemma ScanStepField(st: ScanState, seg: Segment, f: Field)
    requires st.mbeanObjName.None? && ScanStep(st, seg).Success?
    ensures seg.kind == FieldKind(f) ==>
      SegmentField(seg, f).Success? && FieldOf(ScanStep(st, seg).value, f) == Some(SegmentField(seg, f).value)
    ensures seg.kind != FieldKind(f) ==> FieldOf(ScanStep(st, seg).value, f) == FieldOf(st, f)
  {
  }

  /**
   * Each of serviceName, serviceURL, portName and the name is set exactly
   * when the loop gets to a segment of its kind, and then holds what the
   * last such segment parses to: a later service= or port= segment
   * overrides an earlier one, and none after the name segment is seen.
   */
  lemma {:induction false} ScanFindsLast(segs: seq<Segment>, f: Field)
    requires Scan(segs).Success?
    ensures FieldOf(Scan(segs).value, f).Some? <==> exists j :: LastReached(segs, j, FieldKind(f))
    ensures forall j :: LastReached(segs, j, FieldKind(f)) ==>
      FieldOf(Scan(segs).value, f).Some? && SegmentField(segs[j], f) == Success(FieldOf(Scan(segs).value, f).value)
    decreases |segs|
  {
    if segs != [] {
      var n := |segs| - 1;
      var init := segs[..n];
      var kind := FieldKind(f);
      var st0 := Scan(init).value;
      var st := Scan(segs).value;
      ScanFindsLast(init, f);
      ScanStopFlag(init);
      ReachedSnoc(segs, kind);
      assert forall j :: 0 <= j < n ==> segs[j] == init[j];
      if st0.mbeanObjName.Some? {
        assert st == st0;
        assert !Reached(segs, n);
      } else {
        ScanStepField(st0, segs[n], f);
        assert Reached(segs, n);
      }
    } else {
      assert forall j :: !LastReached(segs, j, FieldKind(f));
    }
  }

  /** What each field of a successful scan can hold. */
  predicate FieldShape(f: Field, v: string)
  {
    match f
    case ServiceURLField => '/' !in v && '"' !in v
    case ServiceNameField => '"' !in v
    case PortField => '"' !in v
    case NameField => forall i :: 0 <= i < |v| ==> IsNameChar(v[i])
  }

  /** Each parser yields a value of its field's shape. */
  lemma ParsedFieldShape(f: Field, seg: string)
    requires ParseField(f, seg).Success?
    ensures FieldShape(f, ParseField(f, seg).value)
  {
    match f
    case ServiceURLField => ServiceURLShape(seg);
    case ServiceNameField => ServiceNameShape(seg);
    case PortField => PortNameShape(seg);
    case NameField => StatsNameSanitises(seg);
  }

  /** A field a successful scan has set holds a value of its shape. */
  lemma ScanFieldShape(segs: seq<Segment>, f: Field)
    requires forall k :: 0 <= k < |segs| ==> Parsed(segs[k])
    requires Scan(segs).Success?
    ensures FieldOf(Scan(segs).value, f).Some? ==> FieldShape(f, FieldOf(Scan(segs).value, f).value)
  {
    ScanFindsLast(segs, f);
    if FieldOf(Scan(segs).value, f).Some? {
      var j :| LastReached(segs, j, FieldKind(f));
      assert Parsed(segs[j]);
      assert SegmentField(segs[j], f) == ParseField(f, segs[j].text);
      ParsedFieldShape(f, segs[j].text);
    }
  }

  /** What the fields of a successful scan hold: no quotes, no '/' in the URL, only [a-zA-Z0-9._] in the name. */
  predicate WellFormedScan(st: ScanState)
  {
    && (st.serviceURL.Some? ==> FieldShape(ServiceURLField, st.serviceURL.value))
    && (st.serviceName.Some? ==> FieldShape(ServiceNameField, st.serviceName.value))
    && (st.portName.Some? ==> FieldShape(PortField, st.portName.value))
    && (st.mbeanObjName.Some? ==> FieldShape(NameField, st.mbeanObjName.value))
  }

  lemma ScanWellFormed(segs: seq<Segment>)
    requires forall k :: 0 <= k < |segs| ==> Parsed(segs[k])
    requires Scan(segs).Success?
    ensures WellFormedScan(Scan(segs).value)
  {
    ScanFieldShape(segs, ServiceURLField);
    ScanFieldShape(segs, ServiceNameField);
    ScanFieldShape(segs, PortField);
    ScanFieldShape(segs, NameField);
  }

  /** Every classified segment records what the getters return on its text. */
  lemma ClassifiedParsed(raws: seq<string>)
    ensures forall k :: 0 <= k < |raws| ==> Parsed(Classified(raws)[k])
  {
    forall k | 0 <= k < |raws|
      ensures Parsed(Classified(raws)[k])
    {
      assert Classified(raws)[k] == Classify(raws[k]);
    }
  }

  /**
   * The label of a well-formed scan is serviceURL.serviceName.portName when
   * all three were found, else the name when it was found, else "unknown".
   * It never holds a quote, the URL part never a '/', and the name label
   * only characters of [a-zA-Z0-9._].
   */
  lemma ComposeShape(st: ScanState)
    requires WellFormedScan(st)
    ensures var text := Compose(st);
      && '"' !in text
      && (st.serviceURL.Some? && st.serviceName.Some? && st.portName.Some? ==>
            text == st.serviceURL.value + "." + st.serviceName.value + "." + st.portName.value
            && '/' !in st.serviceURL.value)
      && (!(st.serviceURL.Some? && st.serviceName.Some? && st.portName.Some?) && st.mbeanObjName.Some? ==>
            text == st.mbeanObjName.value && forall i :: 0 <= i < |text| ==> IsNameChar(text[i]))
      && (!(st.serviceURL.Some? && st.serviceName.Some? && st.portName.Some?) && st.mbeanObjName.None? ==>
            text == "unknown")
  {
    if !(st.serviceURL.Some? && st.serviceName.Some? && st.portName.Some?) && st.mbeanObjName.Some? {
      assert !IsNameChar('"');
    }
  }

  /** The label getMBeanStatsString computes has the shape ComposeShape states, for the scan of the object name. */
  lemma LabelShape(objectName: string)
    requires StatsLabel(objectName).Success?
    ensures var st := Scan(Classified(Split(objectName, ','))).value;
      WellFormedScan(st) && StatsLabel(objectName).value == Compose(st)
  {
    ClassifiedParsed(Split(objectName, ','));
    ScanWellFormed(Classified(Split(objectName, ',')));
  }

  /** An object name with no service=, port= or name= segment is labelled "unknown". */
  lemma LabelUnknown(objectName: string)
    requires var segs := Classified(Split(objectName, ','));
      forall k :: 0 <= k < |segs| ==> segs[k].kind == OtherSegment
    ensures StatsLabel(objectName) == Success("unknown")
  {
    ScanOthers(Classified(Split(objectName, ',')));
  }

  /** When the first segment with a marker is a name= segment, the scan ends with the step on it. */
  lemma ScanFromFirstName(segs: seq<Segment>, j: int)
    requires 0 <= j < |segs| && segs[j].kind == NameSegment
    requires forall k :: 0 <= k < j ==> segs[k].kind == OtherSegment
    ensures Scan(segs) == ScanStep(Unscanned, segs[j])
  {
    var upTo := segs[..j + 1];
    ScanOthers(segs[..j]);
    assert upTo[..j] == segs[..j];
    if Scan(upTo).Success? {
      ScanStepFlag(Unscanned, segs[j]);
    }
    ScanStopsAtName(upTo, segs[j + 1..]);
    assert upTo + segs[j + 1..] == segs;
  }

  /**
   * When the first segment with a marker is a name= segment, the label is
   * that segment's sanitised name (or its exception), whatever follows it.
   */
  lemma LabelFromFirstName(objectName: string, j: int)
    requires var segs := Classified(Split(objectName, ','));
      && 0 <= j < |segs| && segs[j].kind == NameSegment
      && forall k :: 0 <= k < j ==> segs[k].kind == OtherSegment
    ensures StatsLabel(objectName) == StatsName(Trim(Split(objectName, ',')[j]))
  {
    var segs := Classified(Split(objectName, ','));
    ScanFromFirstName(segs, j);
  }

  // ---------------------------------------------------------------------
  // getRESTMBeanStatsTags
  // ---------------------------------------------------------------------

  /** The three replaceAll calls on the method slot (lines 124-128). */
  function CleanMethod(m: string): string
  {
    Replace(Replace(Replace(m, "()", ""), "(", "_"), "(", "")
  }

  /** The slots of split("/") on the name= segment, the method slot cleaned; fewer than three parts make Tags[2] throw. */
  function MethodTags(seg: string): Result<seq<Option<string>>, JavaException>
  {
    var parts := Split(seg, '/');
    if |parts| < 3 then Failure(ArrayIndexOutOfBounds)
    else Success(seq(|parts|, k requires 0 <= k < |parts| => Some(if k == 2 then CleanMethod(parts[2]) else parts[k])))
  }

  /** The loop of getRESTMBeanStatsTags over the remaining segments: the first one containing name= decides. */
  function RestTagsFrom(segs: seq<string>): (r: Result<seq<Option<string>>, JavaException>)
    ensures r.Success? ==> |r.value| >= 3
    decreases |segs|
  {
    if segs == [] then Success([None, None, None])
    else
      var seg := Trim(segs[0]);
      if Contains(seg, "name=") then MethodTags(seg) else RestTagsFrom(segs[1..])
  }

  /** What getRESTMBeanStatsTags returns: at least three slots, or the exception. */
  function RestTags(objectName: string): (r: Result<seq<Option<string>>, JavaException>)
    ensures r.Success? ==> |r.value| >= 3
  {
    RestTagsFrom(Split(objectName, ','))
  }

  /** After the first two replacements no '(' is left, so the third (line 128) changes nothing. */
  lemma CleanMethodHasNoParen(m: string)
    ensures '(' !in CleanMethod(m)
    ensures CleanMethod(m) == Replace(Replace(m, "()", ""), "(", "_")
  {
    var a := Replace(m, "()", "");
    var b := Replace(a, ['('], ['_']);
    ReplaceEliminates(a, '(', ['_']);
    ContainsChar(b, '(');
    ReplaceAbsent(b, ['('], []);
  }

  /** With no segment containing name=, the tags stay three nulls. */
  lemma {:induction false} RestTagsWithoutName(segs: seq<string>)
    requires forall k :: 0 <= k < |segs| ==> !Contains(Trim(segs[k]), "name=")
    ensures RestTagsFrom(segs) == Success([None, None, None])
    decreases |segs|
  {
    if segs != [] {
      assert forall k :: 0 <= k < |segs[1..]| ==> segs[1..][k] == segs[k + 1];
      RestTagsWithoutName(segs[1..]);
    }
  }

  /**
   * A segment with fewer than three '/'-parts throws; otherwise the slots
   * are its parts with slot 2 cleaned, and slot 2 has no '('.
   */
  lemma MethodTagsShape(seg: string)
    ensures var parts := Split(seg, '/');
      && (MethodTags(seg).Failure? <==> |parts| < 3)
      && (MethodTags(seg).Failure? ==> MethodTags(seg).error == ArrayIndexOutOfBounds)
      && (MethodTags(seg).Success? ==>
            var tags := MethodTags(seg).value;
            && |tags| == |parts|
            && (forall k :: 0 <= k < |parts| && k != 2 ==> tags[k] == Some(parts[k]))
            && tags[2] == Some(CleanMethod(parts[2]))
            && '(' !in tags[2].value)
  {
    var parts := Split(seg, '/');
    if |parts| >= 3 {
      CleanMethodHasNoParen(parts[2]);
    }
  }

  /** The first segment containing name= decides the tags; later segments are not looked at. */
  lemma {:induction false} RestTagsFromFirstName(segs: seq<string>, j: int)
    requires 0 <= j < |segs| && Contains(Trim(segs[j]), "name=")
    requires forall k :: 0 <= k < j ==> !Contains(Trim(segs[k]), "name=")
    ensures RestTagsFrom(segs) == MethodTags(Trim(segs[j]))
    decreases j
  {
    if j > 0 {
      assert forall k :: 0 <= k < j - 1 ==> segs[1..][k] == segs[k + 1];
      RestTagsFromFirstName(segs[1..], j - 1);
    }
  }

  // ---------------------------------------------------------------------
  // Worked examples
  // ---------------------------------------------------------------------

  /** A string that neither starts nor ends with a character at or below U+0020 is its own trim. */
  lemma TrimUntouched(s: string)
    requires s != [] && s[0] > ' ' && s[|s| - 1] > ' '
    ensures Trim(s) == s
  {
  }

  /** Two pieces without c joined by one c split back into those pieces. */
  lemma SplitTwo(a: string, b: string, c: char)
    requires c !in a && c !in b && b != []
    ensures Split(a + [c] + b, c) == [a, b]
  {
    var parts := [a, b];
    assert Join(parts, c) == a + [c] + b by {
      assert Join(parts[1..], c) == b;
    }
    PiecesOfJoin(parts, c);
    assert (a + [c] + b)[|a|] == c;
  }

  /** Three pieces without c joined by c split back into those pieces. */
  lemma SplitThree(a: string, b: string, d: string, c: char)
    requires c !in a && c !in b && c !in d && d != []
    ensures Split(a + [c] + b + [c] + d, c) == [a, b, d]
  {
    var parts := [a, b, d];
    assert Join(parts, c) == a + [c] + b + [c] + d by {
      assert Join(parts[2..], c) == d;
      assert Join(parts[1..], c) == b + [c] + d;
    }
    PiecesOfJoin(parts, c);
    assert (a + [c] + b + [c] + d)[|a|] == c;
  }

  /** An object name of a segment without markers and then a name= segment is labelled by the name segment alone. */
  lemma LabelOfOtherThenName(other: string, named: string)
    requires ',' !in other && ',' !in named && named != []
    requires KindOf(Trim(other)) == OtherSegment && KindOf(Trim(named)) == NameSegment
    ensures StatsLabel(other + [','] + named) == StatsName(Trim(named))
  {
    var objectName := other + [','] + named;
    SplitTwo(other, named, ',');
    var raws := Split(objectName, ',');
    assert Classify(raws[0]).kind == OtherSegment;
    assert Classify(raws[1]).kind == NameSegment;
    LabelFromFirstName(objectName, 1);
  }

  /**
   * A quoted name keeps its quotes up to sanitising, and the quotes become
   * underscores: type=Stats,name="My Bean/1" is labelled _My_Bean_1_.
   */
  lemma QuotedNameExample()
    ensures StatsLabel("type=Stats,name=\"My Bean/1\"") == Success("_My_Bean_1_")
  {
    var other, named := "type=Stats", "name=\"My Bean/1\"";
    assert other + [','] + named == "type=Stats,name=\"My Bean/1\"";
    assert ',' !in other && ',' !in named;
    OtherExample(other);
    NamedExample(named);
    LabelOfOtherThenName(other, named);
    NameValueExample(named);
  }

  /** type=Stats is trimmed to itself and has none of the three markers. */
  lemma OtherExample(other: string)
    requires other == "type=Stats"
    ensures Trim(other) == other && KindOf(other) == OtherSegment
  {
    TrimUntouched(other);
    MissingCharNotContained(other, "service=", 'v');
    MissingCharNotContained(other, "port=", 'o');
    MissingCharNotContained(other, "name=", 'n');
  }

  /** name="My Bean/1" is trimmed to itself and is a name= segment. */
  lemma NamedExample(named: string)
    requires named == "name=\"My Bean/1\""
    ensures Trim(named) == named && KindOf(named) == NameSegment
  {
    TrimUntouched(named);
    MissingCharNotContained(named, "service=", 'v');
    MissingCharNotContained(named, "port=", 'p');
    StartsWithIffPrefix(named, "name=");
  }

  /** The name value of name="My Bean/1" sanitises to _My_Bean_1_. */
  lemma NameValueExample(named: string)
    requires named == "name=\"My Bean/1\""
    ensures StatsName(named) == Success("_My_Bean_1_")
  {
    var key, value := "name", "\"My Bean/1\"";
    assert named == key + ['='] + value;
    assert '=' !in key;
    assert '=' !in value;
    FirstFieldAfter(key, value, '=');
    StatsNameValue(named);
    SanitizeExample(value);
  }

  /** The name label of a segment whose second '='-field exists is that field sanitised. */
  lemma StatsNameValue(nameStr: string)
    requires HasSecondField(nameStr, '=')
    ensures StatsName(nameStr) == Success(Sanitize(SecondField(nameStr, '=')))
  {
    StatsNameSanitises(nameStr);
  }

  /** The text after "key=" is the second '='-field when it has no '=' and is not empty. */
  lemma FirstFieldAfter(key: string, value: string, c: char)
    requires c !in key && c !in value && value != []
    ensures HasSecondField(key + [c] + value, c) && SecondField(key + [c] + value, c) == value
  {
    var s := key + [c] + value;
    assert s[..|key|] == key;
    assert IndexOf(s, c) == |key|;
    assert s[|key| + 1..] == value;
    assert s[|key| + 1] != c;
  }

  lemma SanitizeExample(value: string)
    requires value == "\"My Bean/1\""
    ensures Sanitize(value) == "_My_Bean_1_"
  {
    SanitizePointwise(value);
  }

  /** A segment without ',' and with name= is the segment getRESTMBeanStatsTags splits, when trim leaves it alone. */
  lemma RestTagsOfOneSegment(seg: string)
    requires ',' !in seg && Trim(seg) == seg && Contains(seg, "name=")
    ensures RestTags(seg) == MethodTags(seg)
  {
    RestTagsFromFirstName([seg], 0);
  }

  /** A name= segment class/method with only one '/' has no method slot, so Tags[2] throws. */
  lemma RestTagsOfTwo(className: string, methodName: string)
    requires "name=" <= className && className[0] > ' '
    requires '/' !in className && '/' !in methodName && ',' !in className && ',' !in methodName
    requires methodName != [] && methodName[|methodName| - 1] > ' '
    ensures RestTags(className + "/" + methodName) == Failure(ArrayIndexOutOfBounds)
  {
    var seg := className + "/" + methodName;
    assert seg[0] == className[0];
    TrimUntouched(seg);
    assert "name=" <= seg;
    StartsWithIffPrefix(seg, "name=");
    RestTagsOfOneSegment(seg);
    SplitTwo(className, methodName, '/');
  }

  /** name=com.foo.Bar/myMethod() has no method slot, so Tags[2] throws. */
  lemma TwoPartRestExample()
    ensures RestTags("name=com.foo.Bar" + "/" + "myMethod()") == Failure(ArrayIndexOutOfBounds)
  {
    var className, methodName := "name=com.foo.Bar", "myMethod()";
    assert "name=" <= className;
    RestTagsOfTwo(className, methodName);
  }

  /** The method slot myMethod() loses its empty parentheses. */
  lemma CleanEmptyMethodExample(m: string)
    requires m == "myMethod()"
    ensures CleanMethod(m) == "myMethod"
  {
    var name := "myMethod";
    assert m == name + "()";
    assert '(' !in name;
    ReplaceAtEnd(name, "()", "");
    assert Replace(m, "()", "") == name;
    CleanMethodHasNoParen(m);
    ContainsChar(name, '(');
    ReplaceAbsent(name, "(", "_");
    assert Replace(name, "(", "_") == name;
  }

  /** The slots of a name= segment with three '/'-parts: the parts, the third cleaned. */
  lemma MethodTagsOfThree(a: string, b: string, d: string)
    requires '/' !in a && '/' !in b && '/' !in d && d != []
    ensures MethodTags(a + ['/'] + b + ['/'] + d) == Success([Some(a), Some(b), Some(CleanMethod(d))])
  {
    var seg := a + ['/'] + b + ['/'] + d;
    SplitThree(a, b, d, '/');
    MethodTagsShape(seg);
    var tags := MethodTags(seg).value;
    assert tags[0] == Some(a) && tags[1] == Some(b) && tags[2] == Some(CleanMethod(d));
    assert tags == [Some(a), Some(b), Some(CleanMethod(d))];
  }

  /**
   * A name= segment class-context/class/method() alone in the object name
   * gives the slots class-context, class and method, the method's empty
   * parentheses removed.
   */
  lemma RestTagsOfThree(context: string, className: string, methodName: string)
    requires "name=" <= context && context[0] > ' '
    requires '/' !in context && '/' !in className && '/' !in methodName
    requires ',' !in context && ',' !in className && ',' !in methodName
    requires methodName != [] && methodName[|methodName| - 1] > ' '
    ensures RestTags(context + "/" + className + "/" + methodName) ==
      Success([Some(context), Some(className), Some(CleanMethod(methodName))])
  {
    var seg := context + "/" + className + "/" + methodName;
    assert seg[0] == context[0];
    TrimUntouched(seg);
    assert "name=" <= seg;
    StartsWithIffPrefix(seg, "name=");
    RestTagsOfOneSegment(seg);
    MethodTagsOfThree(context, className, methodName);
  }

  /** name=app/com.foo.Bar/myMethod() gives the slots name=app, com.foo.Bar and myMethod. */
  lemma ThreePartRestExample()
    ensures RestTags("name=app" + "/" + "com.foo.Bar" + "/" + "myMethod()") ==
      Success([Some("name=app"), Some("com.foo.Bar"), Some("myMethod")])
  {
    var context, className, methodName := "name=app", "com.foo.Bar", "myMethod()";
    assert "name=" <= context;
    RestTagsOfThree(context, className, methodName);
    CleanEmptyMethodExample(methodName);
  }

  /** The scan of two segments is the step on the first and then the step on the second. */
  lemma ScanTwo(first: Segment, second: Segment)
    ensures Scan([first, second]) == (var st :- ScanStep(Unscanned, first); ScanStep(st, second))
  {
    assert [first, second][..1] == [first];
    assert [first][..0] == [];
    assert Scan([first]) == ScanStep(Unscanned, first);
  }

  /** Classifying two raw segments classifies each. */
  lemma ClassifiedTwo(a: string, b: string)
    ensures Classified([a, b]) == [Classify(a), Classify(b)]
  {
    var raws := [a, b];
    assert raws[0] == a && raws[1] == b;
    PairOf(Classified(raws), Classify(a), Classify(b));
  }

  /** A sequence of length two is the pair of its elements. */
  lemma PairOf<T>(r: seq<T>, x: T, y: T)
    requires |r| == 2 && r[0] == x && r[1] == y
    ensures r == [x, y]
  {
  }

  /** The label of two segments, a service= segment the loop parses and then a port= segment, is url.service.port. */
  lemma ComposeServiceThenPort(first: Segment, second: Segment, url: string, name: string, portName: string)
    requires first.kind == ServiceSegment && first.serviceName == Success(name) && first.serviceURL == Success(url)
    requires second.kind == PortSegment && second.portName == Success(portName)
    ensures Scan([first, second]).Success? && Compose(Scan([first, second]).value) == url + "." + name + "." + portName
  {
    ScanTwo(first, second);
  }

  /** An object name of a parseable service= segment and then a parseable port= segment is labelled url.service.port. */
  lemma LabelOfServiceThenPort(svc: string, port: string, url: string, name: string, portName: string)
    requires ',' !in svc && ',' !in port && port != []
    requires Trim(svc) == svc && Trim(port) == port
    requires KindOf(svc) == ServiceSegment && KindOf(port) == PortSegment
    requires ServiceName(svc) == Success(name) && ServiceURL(svc) == Success(url) && PortName(port) == Success(portName)
    ensures StatsLabel(svc + [','] + port) == Success(url + "." + name + "." + portName)
  {
    SplitTwo(svc, port, ',');
    ClassifiedTwo(svc, port);
    ComposeServiceThenPort(Classify(svc), Classify(port), url, name, portName);
  }

  /** Unquoting a string without quotes changes nothing. */
  lemma UnquoteAbsent(s: string)
    requires '"' !in s
    ensures Unquote(s) == s
  {
    ContainsChar(s, '"');
    ReplaceAbsent(s, "\"", "");
  }

  /** A string that starts with the target has it replaced there first. */
  lemma ReplaceAtStart(target: string, rest: string, replacement: string)
    requires target != []
    ensures Replace(target + rest, target, replacement) == replacement + Replace(rest, target, replacement)
  {
    assert (target + rest)[|target|..] == rest;
  }

  /** The schemes are dropped from http://rest when rest has no ':'. */
  lemma SchemeDropped(rest: string)
    requires ':' !in rest
    ensures Replace(Replace("http://" + rest, "http://", ""), "https://", "") == rest
  {
    ReplaceAtStart("http://", rest, "");
    MissingCharNotContained(rest, "http://", ':');
    ReplaceAbsent(rest, "http://", "");
    assert Replace("http://" + rest, "http://", "") == rest;
    MissingCharNotContained(rest, "https://", ':');
    ReplaceAbsent(rest, "https://", "");
  }

  /** host/path with its one '/' made '.' is host.path. */
  lemma SlashDotted(host: string, path: string)
    requires '/' !in host && '/' !in path
    ensures Replace(host + "/" + path, "/", ".") == host + "." + path
  {
    var rest := host + "/" + path;
    ReplaceCharByChar(rest, '/', '.');
    var dotted := host + "." + path;
    forall i | 0 <= i < |rest|
      ensures Replace(rest, "/", ".")[i] == dotted[i]
    {
      if i < |host| {
        assert rest[i] == host[i] && dotted[i] == host[i];
      } else if i > |host| {
        assert rest[i] == path[i - |host| - 1] && dotted[i] == path[i - |host| - 1];
      }
    }
  }

  /** A URL of the form http://host/path without ':' or further '/' is dotted to host.path. */
  lemma DottedHttp(host: string, path: string)
    requires ':' !in host && ':' !in path && '/' !in host && '/' !in path
    ensures Dotted("http://" + host + "/" + path) == host + "." + path
  {
    var rest := host + "/" + path;
    assert "http://" + host + "/" + path == "http://" + rest;
    assert ':' !in rest;
    SchemeDropped(rest);
    SlashDotted(host, path);
  }

  /** A part of a service or port value without the characters that the parsing looks for. */
  predicate PlainPart(s: string)
  {
    ':' !in s && '/' !in s && '=' !in s && '"' !in s && '{' !in s && '}' !in s && ',' !in s
  }

  /** The value after key= is what the getters read, when it holds no '=' and no quote. */
  lemma ValueAfterKey(key: string, value: string)
    requires '=' !in key && '=' !in value && '"' !in value && value != []
    ensures Element(Split(key + ['='] + value, '='), 1) == Success(value)
    ensures Unquote(value) == value
  {
    FirstFieldAfter(key, value, '=');
    SecondElement(key + ['='] + value, '=');
    UnquoteAbsent(value);
  }

  /** In {url}name the braces are found where they were put, and the parts read back. */
  lemma BracedValue(url: string, name: string)
    requires '{' !in url && '}' !in url
    ensures var value := "{" + url + "}" + name;
      && IndexOf(value, '{') == 0 && IndexOf(value, '}') == 1 + |url|
      && value[1..1 + |url|] == url && value[2 + |url|..] == name
      && Substring(value, IndexOf(value, '{') + 1, IndexOf(value, '}')) == Success(url)
      && value[IndexOf(value, '}') + 1..] == name
  {
    var value := "{" + url + "}" + name;
    IndexOfAt(value, 0, '{');
    assert value[..1 + |url|] == "{" + url;
    IndexOfAt(value, 1 + |url|, '}');
    assert |value| == 2 + |url| + |name|;
    assert value[1..1 + |url|] == url;
  }

  /** service={url}name parses to the service name and to the dotted URL. */
  lemma ServiceOfValue(url: string, name: string)
    requires PlainPart(name) && '{' !in url && '}' !in url && '=' !in url && '"' !in url
    ensures var svc := "service" + ['='] + ("{" + url + "}" + name);
      ServiceName(svc) == Success(name) && ServiceURL(svc) == Success(Dotted(url))
  {
    var svc := "service" + ['='] + ("{" + url + "}" + name);
    var value := "{" + url + "}" + name;
    assert '=' !in value && '"' !in value;
    ValueAfterKey("service", value);
    FieldsOfValue(svc, value);
    BracedValue(url, name);
  }

  /** The three getters on a segment whose split("=")[1] is value. */
  lemma FieldsOfValue(s: string, value: string)
    requires Element(Split(s, '='), 1) == Success(value)
    ensures ServiceName(s) == Success(Unquote(value)[IndexOf(Unquote(value), '}') + 1..])
    ensures ServiceURL(s) == BracedURL(Unquote(value))
    ensures PortName(s) == Success(Unquote(value))
  {
  }

  /** http://host/path, for plain host and path, has none of the characters the service parsing looks for. */
  lemma PlainHttpUrl(host: string, path: string)
    requires PlainPart(host) && PlainPart(path)
    ensures var url := "http://" + host + "/" + path;
      '{' !in url && '}' !in url && '=' !in url && '"' !in url && ',' !in url
  {
    var scheme := "http://";
    assert '{' !in scheme && '}' !in scheme && '=' !in scheme && '"' !in scheme && ',' !in scheme;
  }

  /** service={http://host/path}name parses to the service name and to the URL host.path. */
  lemma ServiceOfParts(host: string, path: string, name: string)
    requires PlainPart(host) && PlainPart(path) && PlainPart(name)
    ensures var svc := ServiceSegmentText(host, path, name);
      ServiceName(svc) == Success(name) && ServiceURL(svc) == Success(host + "." + path)
  {
    PlainHttpUrl(host, path);
    ServiceOfValue("http://" + host + "/" + path, name);
    DottedHttp(host, path);
  }

  /** port=p, for a plain non-empty p, is a port= segment that parses to p. */
  lemma PortSegmentOf(p: string)
    requires PlainPart(p) && p != [] && p[|p| - 1] > ' '
    ensures var port := "port=" + p;
      Trim(port) == port && KindOf(port) == PortSegment && PortName(port) == Success(p) && ',' !in port
  {
    PortKind(p);
    PortNameOf(p);
    assert ',' !in "port=";
  }

  /** port=p is left alone by trim and takes the port= branch. */
  lemma PortKind(p: string)
    requires PlainPart(p) && p != [] && p[|p| - 1] > ' '
    ensures Trim("port=" + p) == "port=" + p && KindOf("port=" + p) == PortSegment
  {
    var port := "port=" + p;
    TrimUntouched(port);
    PortHasNoService(p);
    StartsWithIffPrefix(port, "port=");
  }

  /** port=p parses to the port name p. */
  lemma PortNameOf(p: string)
    requires PlainPart(p) && p != []
    ensures PortName("port=" + p) == Success(p)
  {
    assert "port=" + p == "port" + ['='] + p;
    ValueAfterKey("port", p);
    FieldsOfValue("port" + ['='] + p, p);
  }

  /** port=p, for a plain p, does not contain service=. */
  lemma PortHasNoService(p: string)
    requires PlainPart(p)
    ensures !Contains("port=" + p, "service=")
  {
    var port := "port=" + p;
    ContainsIffOccurs(port, "service=");
    forall i | 0 <= i <= |port|
      ensures !("service=" <= port[i..])
    {
      if i + 7 < |port| {
        assert port[i..][7] == p[i + 2];
      }
      NotPrefixAt("service=", port[i..], 7);
    }
  }

  /** The object name service={http://host/path}name,port=p, as the parsing lemmas take its segments apart. */
  function ServiceObjectName(host: string, path: string, name: string, p: string): (r: string)
    ensures r == ServiceSegmentText(host, path, name) + [','] + ("port=" + p)
  {
    "service={http://" + host + "/" + path + "}" + name + ",port=" + p
  }

  /** The service= segment service={http://host/path}name. */
  function ServiceSegmentText(host: string, path: string, name: string): string
  {
    "service" + ['='] + ("{" + ("http://" + host + "/" + path) + "}" + name)
  }

  /** service={http://host/path}name, for plain parts, is a service= segment without ','. */
  lemma ServiceSegmentOf(host: string, path: string, name: string)
    requires PlainPart(host) && PlainPart(path) && PlainPart(name) && name != [] && name[|name| - 1] > ' '
    ensures var svc := ServiceSegmentText(host, path, name);
      Trim(svc) == svc && KindOf(svc) == ServiceSegment && ',' !in svc
  {
    var svc := ServiceSegmentText(host, path, name);
    var url := "http://" + host + "/" + path;
    assert svc == "service=" + ("{" + url + "}" + name);
    ServiceKind(svc);
    PlainHttpUrl(host, path);
    assert ',' !in "service=";
  }

  /** A segment starting with service= and ending above U+0020 is left alone by trim and takes the service= branch. */
  lemma ServiceKind(svc: string)
    requires "service=" <= svc && svc[|svc| - 1] > ' '
    ensures Trim(svc) == svc && KindOf(svc) == ServiceSegment
  {
    TrimUntouched(svc);
    StartsWithIffPrefix(svc, "service=");
  }

  /**
   * service={http://host/path}name,port=p is labelled host.path.name.p: the
   * scheme is dropped, the URL's '/' becomes '.', and the three parts are
   * joined by '.'.
   */
  lemma ServiceLabelOfParts(host: string, path: string, name: string, p: string)
    requires PlainPart(host) && PlainPart(path) && PlainPart(name) && PlainPart(p)
    requires name != [] && name[|name| - 1] > ' ' && p != [] && p[|p| - 1] > ' '
    ensures StatsLabel(ServiceObjectName(host, path, name, p)) == Success(host + "." + path + "." + name + "." + p)
  {
    var svc := ServiceSegmentText(host, path, name);
    var port := "port=" + p;
    ServiceSegmentOf(host, path, name);
    ServiceOfParts(host, path, name);
    PortSegmentOf(p);
    LabelOfServiceThenPort(svc, port, host + "." + path, name, p);
  }
}
