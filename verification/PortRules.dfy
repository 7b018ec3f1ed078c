/** The text form of inbound ports: rules such as `80`, `80:udp`, `80-90` or `80-90:tcp`, separated
    by semicolons. */
module PortRules {
  import opened Wrappers
  import opened SecurityGroup
  import Text

  predicate IsSpace(c: char) { c in " \t\n\r\U{0B}\U{0C}" }

  predicate Blank(s: string) { forall k :: 0 <= k < |s| ==> IsSpace(s[k]) }

  function LeftStrip(s: string): string { if s != "" && IsSpace(s[0]) then LeftStrip(s[1..]) else s }

  function RightStrip(s: string): string {
    if s != "" && IsSpace(s[|s| - 1]) then RightStrip(s[..|s| - 1]) else s
  }

  function Strip(s: string): string { RightStrip(LeftStrip(s)) }

  function LowerChar(c: char): char { if 'A' <= c <= 'Z' then 'a' + (c - 'A') else c }

  function Lower(s: string): string { seq(|s|, k requires 0 <= k < |s| => LowerChar(s[k])) }

  predicate AllDigits(s: string) { forall k :: 0 <= k < |s| ==> Text.IsDigit(s[k]) }

  predicate IsNumber(s: string) { s != "" && AllDigits(s) }

  predicate IsProtocol(s: string) { Lower(s) == "udp" || Lower(s) == "tcp" }

  function SinglePort(port: string, protocol: string): RuleRequest {
    RuleData("", protocol, port, "", "", Allow)
  }

  function PortSpan(from: string, to: string, protocol: string): RuleRequest {
    RuleData("", protocol, "", from, to, Allow)
  }

  // ---------- one rule ----------

  ghost predicate FromToProtocol(s: string, from: string, to: string, protocol: string) {
    s == from + "-" + to + ":" + protocol && IsNumber(from) && IsNumber(to) && IsProtocol(protocol)
  }

  ghost predicate FromProtocol(s: string, from: string, protocol: string) {
    s == from + ":" + protocol && IsNumber(from) && IsProtocol(protocol)
  }

  ghost predicate FromTo(s: string, from: string, to: string) {
    s == from + "-" + to && IsNumber(from) && IsNumber(to)
  }

  /** What the four patterns say that a text stands for; the protocol is TCP unless given. */
  ghost predicate Denotes(s: string, rule: RuleRequest) {
    || (exists from, to, protocol ::
          FromToProtocol(s, from, to, protocol) && rule == PortSpan(from, to, Lower(protocol)))
    || (exists from, protocol :: FromProtocol(s, from, protocol) && rule == SinglePort(from, Lower(protocol)))
    || (exists from, to :: FromTo(s, from, to) && rule == PortSpan(from, to, "tcp"))
    || (IsNumber(s) && rule == SinglePort(s, "tcp"))
  }

  /** The number of digits that `s` starts with. */
  function Leading(s: string): (n: nat)
    ensures n <= |s| && (forall k :: 0 <= k < n ==> Text.IsDigit(s[k])) && (n < |s| ==> !Text.IsDigit(s[n]))
  {
    if s == "" || !Text.IsDigit(s[0]) then 0
    else
      var rest := s[1..];
      assert forall k :: 1 <= k < |s| ==> s[k] == rest[k - 1];
      1 + Leading(rest)
  }

  function Rejected(s: string): string { "The value '" + s + "' is not a valid ports rule" }

  function SinglePortParse(s: string): Result<RuleRequest> {
    var n := Leading(s);
    if n == 0 then Raised(Rejected(s))
    else if n == |s| then Ok(SinglePort(s, "tcp"))
    else
      var from, rest := s[..n], s[n + 1..];
      if s[n] == ':' && IsProtocol(rest) then Ok(SinglePort(from, Lower(rest)))
      else if s[n] == '-' then
        var m := Leading(rest);
        if m == 0 then Raised(Rejected(s))
        else if m == |rest| then Ok(PortSpan(from, rest, "tcp"))
        else if rest[m] == ':' && IsProtocol(rest[m + 1..]) then Ok(PortSpan(from, rest[..m], Lower(rest[m + 1..])))
        else Raised(Rejected(s))
      else Raised(Rejected(s))
  }

  lemma {:induction false} LeadingOf(digits: string, rest: string)
    requires AllDigits(digits) && (rest == "" || !Text.IsDigit(rest[0]))
    ensures Leading(digits + rest) == |digits|
    ensures (digits + rest)[..|digits|] == digits && (digits + rest)[|digits|..] == rest
  {
    if digits == "" {
      assert digits + rest == rest;
    } else {
      assert (digits + rest)[1..] == digits[1..] + rest && (digits + rest)[0] == digits[0];
      LeadingOf(digits[1..], rest);
    }
  }

  lemma Scan(digits: string, separator: string, rest: string)
    requires AllDigits(digits) && |separator| == 1 && !Text.IsDigit(separator[0])
    ensures var s := digits + separator + rest;
            && Leading(s) == |digits| && s[..|digits|] == digits
            && s[|digits|] == separator[0] && s[|digits| + 1..] == rest
  {
    assert digits + separator + rest == digits + (separator + rest);
    LeadingOf(digits, separator + rest);
  }

  lemma ScanAll(digits: string)
    requires AllDigits(digits)
    ensures Leading(digits) == |digits|
  {
    LeadingOf(digits, "");
    assert digits + "" == digits;
  }

  lemma ParseFromTo(s: string, from: string, to: string)
    requires FromTo(s, from, to)
    ensures SinglePortParse(s) == Ok(PortSpan(from, to, "tcp"))
  {
    Scan(from, "-", to);
    ScanAll(to);
  }

  lemma ParseFromProtocol(s: string, from: string, protocol: string)
    requires FromProtocol(s, from, protocol)
    ensures SinglePortParse(s) == Ok(SinglePort(from, Lower(protocol)))
  {
    Scan(from, ":", protocol);
  }

  lemma ParseFromToProtocol(s: string, from: string, to: string, protocol: string)
    requires FromToProtocol(s, from, to, protocol)
    ensures SinglePortParse(s) == Ok(PortSpan(from, to, Lower(protocol)))
  {
    var tail := to + ":" + protocol;
    Regroup(from + "-", to, ":", protocol);
    Scan(from, "-", tail);
    Scan(to, ":", protocol);
  }

  lemma Regroup(a: string, b: string, c: string, d: string)
    ensures a + b + c + d == a + (b + c + d)
  {
  }

  /** The patterns are unambiguous, and the parser decides them: it gives exactly the rule that a
      text stands for, and raises exactly on texts that stand for none. */
  lemma ParserDecides(s: string, rule: RuleRequest)
    ensures SinglePortParse(s) == Ok(rule) <==> Denotes(s, rule)
  {
    if Denotes(s, rule) {
      if from, to, protocol :| FromToProtocol(s, from, to, protocol) && rule == PortSpan(from, to, Lower(protocol)) {
        ParseFromToProtocol(s, from, to, protocol);
      } else if from, protocol :| FromProtocol(s, from, protocol) && rule == SinglePort(from, Lower(protocol)) {
        ParseFromProtocol(s, from, protocol);
      } else if from, to :| FromTo(s, from, to) && rule == PortSpan(from, to, "tcp") {
        ParseFromTo(s, from, to);
      } else {
        ScanAll(s);
      }
    }
    if SinglePortParse(s) == Ok(rule) {
      AcceptedDenotes(s);
    }
  }

  /** What precedes, is, and follows one character. */
  lemma SplitAt(s: string, n: nat)
    requires n < |s|
    ensures s == s[..n] + [s[n]] + s[n + 1..]
  {
  }

  lemma AcceptedDenotes(s: string)
    requires SinglePortParse(s).Ok?
    ensures Denotes(s, SinglePortParse(s).value)
  {
    var n := Leading(s);
    if n < |s| {
      SplitAt(s, n);
      if s[n] == ':' {
        assert FromProtocol(s, s[..n], s[n + 1..]);
      } else {
        AcceptedSpan(s, s[..n], s[n + 1..]);
      }
    }
  }

  lemma AcceptedSpan(s: string, from: string, rest: string)
    requires SinglePortParse(s).Ok? && s == from + "-" + rest && IsNumber(from)
    ensures Denotes(s, SinglePortParse(s).value)
  {
    Scan(from, "-", rest);
    var m := Leading(rest);
    if m == |rest| {
      assert FromTo(s, from, rest);
    } else {
      var to, protocol := rest[..m], rest[m + 1..];
      SplitAt(rest, m);
      Regroup(from + "-", to, ":", protocol);
      assert FromToProtocol(s, from, to, protocol);
    }
  }

  // ---------- printing ----------

  /** The range and the protocol, as they stand in the name of an inbound rule. */
  function Printed(rule: RuleRequest): string { PortRange(rule) + ":" + rule.protocol }

  predicate IsPortRule(rule: RuleRequest) {
    && rule.RuleData? && rule.name == "" && rule.access == Allow
    && (rule.protocol == "udp" || rule.protocol == "tcp")
    && if rule.port != "" then AllDigits(rule.port) && rule.fromPort == "" && rule.toPort == ""
       else IsNumber(rule.fromPort) && IsNumber(rule.toPort)
  }

  lemma LowerOfProtocol(s: string)
    requires s == "udp" || s == "tcp"
    ensures Lower(s) == s
  {
  }

  /** Parsing what was printed gives the rule back. */
  lemma ParsePrinted(rule: RuleRequest)
    requires IsPortRule(rule)
    ensures SinglePortParse(Printed(rule)) == Ok(rule)
  {
    LowerOfProtocol(rule.protocol);
    if rule.port != "" {
      ParseFromProtocol(Printed(rule), rule.port, rule.protocol);
    } else {
      ParseFromToProtocol(Printed(rule), rule.fromPort, rule.toPort, rule.protocol);
    }
  }

  lemma LowerAppend(a: string, b: string)
    ensures Lower(a + b) == Lower(a) + Lower(b)
  {
  }

  lemma LowerRange(from: string, to: string)
    requires AllDigits(from) && AllDigits(to)
    ensures Lower(from) == from && Lower(from + "-" + to) == from + "-" + to
  {
  }

  lemma PrintFromToProtocol(s: string, from: string, to: string, protocol: string)
    requires FromToProtocol(s, from, to, protocol)
    ensures Printed(PortSpan(from, to, Lower(protocol))) == Lower(s)
  {
    var range := from + "-" + to;
    LowerRange(from, to);
    LowerPrinted(range, protocol);
  }

  lemma LowerPrinted(range: string, protocol: string)
    requires Lower(range) == range
    ensures Lower(range + ":" + protocol) == range + ":" + Lower(protocol)
  {
    LowerAppend(range, ":" + protocol);
    LowerAppend(":", protocol);
    assert range + ":" + protocol == range + (":" + protocol);
    assert Lower(":") == ":";
  }

  /** Whatever the parser accepts is a port rule. */
  lemma ParsedIsPortRule(s: string, rule: RuleRequest)
    requires SinglePortParse(s) == Ok(rule)
    ensures IsPortRule(rule)
  {
    ParserDecides(s, rule);
  }

  /** It prints as the text in lower case, with the protocol added where it was missing. */
  lemma PrintParsed(s: string, rule: RuleRequest)
    requires SinglePortParse(s) == Ok(rule)
    ensures Printed(rule) == Lower(s) || Printed(rule) == Lower(s) + ":tcp"
  {
    ParserDecides(s, rule);
    if from, to, protocol :| FromToProtocol(s, from, to, protocol) && rule == PortSpan(from, to, Lower(protocol)) {
      PrintFromToProtocol(s, from, to, protocol);
    } else if from, protocol :| FromProtocol(s, from, protocol) && rule == SinglePort(from, Lower(protocol)) {
      PrintFromProtocol(s, from, protocol);
    } else {
      PrintWithoutProtocol(s, rule);
    }
  }

  lemma PrintFromProtocol(s: string, from: string, protocol: string)
    requires FromProtocol(s, from, protocol)
    ensures Printed(SinglePort(from, Lower(protocol))) == Lower(s)
  {
    LowerRange(from, from);
    LowerPrinted(from, protocol);
  }

  lemma PrintWithoutProtocol(s: string, rule: RuleRequest)
    requires || (exists from, to :: FromTo(s, from, to) && rule == PortSpan(from, to, "tcp"))
             || (IsNumber(s) && rule == SinglePort(s, "tcp"))
    ensures Printed(rule) == Lower(s) + ":tcp"
  {
    if from, to :| FromTo(s, from, to) && rule == PortSpan(from, to, "tcp") {
      LowerRange(from, to);
    } else {
      LowerRange(s, s);
    }
  }

  lemma PrintedInjective(a: RuleRequest, b: RuleRequest)
    requires IsPortRule(a) && IsPortRule(b) && Printed(a) == Printed(b)
    ensures a == b
  {
    ParsePrinted(a);
    ParsePrinted(b);
  }

  // ---------- lists ----------

  /** The pieces between semicolons. */
  function Split(s: string): (pieces: seq<string>)
    ensures |pieces| > 0
  {
    if s == "" then [""]
    else
      var rest := Split(s[1..]);
      if s[0] == ';' then [""] + rest else [[s[0]] + rest[0]] + rest[1..]
  }

  function NonEmpty(pieces: seq<string>): seq<string> {
    if pieces == [] then []
    else (if pieces[0] == "" then [] else [pieces[0]]) + NonEmpty(pieces[1..])
  }

  function ParseAll(pieces: seq<string>): Result<seq<RuleRequest>> {
    if pieces == [] then Ok([])
    else
      match SinglePortParse(Strip(pieces[0]))
      case Raised(error) => Raised(error)
      case Ok(rule) =>
        match ParseAll(pieces[1..])
        case Raised(error) => Raised(error)
        case Ok(rules) => Ok([rule] + rules)
  }

  function ParsePortGroup(text: string): Result<seq<RuleRequest>> {
    ParseAll(NonEmpty(Split(Strip(text))))
  }

  /** A piece of a list as a user may write it: nothing, or a rule with blanks around it. */
  datatype Piece = Nothing | Rule(before: string, rule: RuleRequest, after: string)

  predicate IsPiece(piece: Piece) {
    piece.Rule? ==> IsPortRule(piece.rule) && Blank(piece.before) && Blank(piece.after)
  }

  function Render(piece: Piece): string {
    if piece.Nothing? then "" else piece.before + Printed(piece.rule) + piece.after
  }

  /** The pieces with semicolons between them. */
  function Join(pieces: seq<Piece>): string {
    if pieces == [] then "" else Render(pieces[0]) + (if |pieces| == 1 then "" else ";" + Join(pieces[1..]))
  }

  function Rules(pieces: seq<Piece>): seq<RuleRequest> {
    if pieces == [] then []
    else (if pieces[0].Rule? then [pieces[0].rule] else []) + Rules(pieces[1..])
  }

  // ---------- lists come back ----------

  function Renders(pieces: seq<Piece>): seq<string> {
    if pieces == [] then [] else [Render(pieces[0])] + Renders(pieces[1..])
  }

  ghost predicate ArePieces(pieces: seq<Piece>) { forall k :: 0 <= k < |pieces| ==> IsPiece(pieces[k]) }

  lemma {:induction false} SplitWhole(a: string)
    requires ';' !in a
    ensures Split(a) == [a]
  {
    if a != "" {
      SplitWhole(a[1..]);
      assert [a[0]] + a[1..] == a;
    }
  }

  lemma {:induction false} SplitHead(a: string, b: string)
    requires ';' !in a
    ensures Split(a + (";" + b)) == [a] + Split(b)
  {
    var s := a + (";" + b);
    if a == "" {
      assert s[0] == ';' && s[1..] == b;
    } else {
      assert s[0] == a[0] && s[1..] == a[1..] + (";" + b);
      SplitHead(a[1..], b);
      assert [a[0]] + a[1..] == a;
    }
  }

  lemma RenderedHasNoSemicolon(piece: Piece)
    requires IsPiece(piece)
    ensures ';' !in Render(piece)
  {
  }

  lemma {:induction false} SplitJoin(pieces: seq<Piece>)
    requires ArePieces(pieces) && pieces != []
    ensures Split(Join(pieces)) == Renders(pieces)
  {
    RenderedHasNoSemicolon(pieces[0]);
    if |pieces| == 1 {
      SplitWhole(Render(pieces[0]));
      assert Render(pieces[0]) + "" == Render(pieces[0]);
    } else {
      SplitHead(Render(pieces[0]), Join(pieces[1..]));
      SplitJoin(pieces[1..]);
    }
  }

  lemma {:induction false} LeftStripPadded(before: string, s: string)
    requires Blank(before) && (s == "" || !IsSpace(s[0]))
    ensures LeftStrip(before + s) == s
  {
    if before == "" {
      assert before + s == s;
    } else {
      assert (before + s)[0] == before[0] && (before + s)[1..] == before[1..] + s;
      LeftStripPadded(before[1..], s);
    }
  }

  lemma {:induction false} RightStripPadded(s: string, after: string)
    requires Blank(after) && (s == "" || !IsSpace(s[|s| - 1]))
    ensures RightStrip(s + after) == s
  {
    if after == "" {
      assert s + after == s;
    } else {
      var whole, less := s + after, after[..|after| - 1];
      assert whole[|whole| - 1] == after[|after| - 1] && whole[..|whole| - 1] == s + less;
      RightStripPadded(s, less);
    }
  }

  /** A printed rule starts with a digit and ends with a letter. */
  lemma PrintedEnds(rule: RuleRequest)
    requires IsPortRule(rule)
    ensures var p := Printed(rule); p != "" && !IsSpace(p[0]) && !IsSpace(p[|p| - 1])
  {
    var p := Printed(rule);
    assert p[0] == PortRange(rule)[0] && Text.IsDigit(p[0]);
    assert p[|p| - 1] == rule.protocol[|rule.protocol| - 1];
  }

  lemma StripPiece(piece: Piece)
    requires IsPiece(piece) && piece.Rule?
    ensures Strip(Render(piece)) == Printed(piece.rule)
  {
    var p := Printed(piece.rule);
    PrintedEnds(piece.rule);
    assert Render(piece) == piece.before + (p + piece.after);
    LeftStripPadded(piece.before, p + piece.after);
    RightStripPadded(p, piece.after);
  }

  lemma {:induction false} ParseRenders(pieces: seq<Piece>)
    requires ArePieces(pieces)
    ensures ParseAll(NonEmpty(Renders(pieces))) == Ok(Rules(pieces))
  {
    if pieces != [] {
      ParseRenders(pieces[1..]);
      assert Renders(pieces)[1..] == Renders(pieces[1..]);
      assert [] + NonEmpty(Renders(pieces[1..])) == NonEmpty(Renders(pieces[1..]));
      assert [] + Rules(pieces[1..]) == Rules(pieces[1..]);
      if pieces[0].Rule? {
        StripPiece(pieces[0]);
        ParsePrinted(pieces[0].rule);
        PrintedEnds(pieces[0].rule);
        var kept := NonEmpty(Renders(pieces[1..]));
        assert NonEmpty(Renders(pieces)) == [Render(pieces[0])] + kept;
        assert ([Render(pieces[0])] + kept)[1..] == kept;
      }
    }
  }

  function TrimStart(pieces: seq<Piece>): seq<Piece>
    requires pieces != []
  {
    [if pieces[0].Rule? then pieces[0].(before := "") else Nothing] + pieces[1..]
  }

  function TrimEnd(pieces: seq<Piece>): (r: seq<Piece>)
    requires pieces != []
    ensures r != []
  {
    if |pieces| == 1 then [if pieces[0].Rule? then pieces[0].(after := "") else Nothing]
    else [pieces[0]] + TrimEnd(pieces[1..])
  }

  lemma StripStart(pieces: seq<Piece>)
    requires ArePieces(pieces) && pieces != []
    ensures LeftStrip(Join(pieces)) == Join(TrimStart(pieces))
    ensures ArePieces(TrimStart(pieces)) && Rules(TrimStart(pieces)) == Rules(pieces)
  {
    var trimmed := TrimStart(pieces);
    var tail := if |pieces| == 1 then "" else ";" + Join(pieces[1..]);
    assert trimmed[1..] == pieces[1..];
    assert Join(pieces) == Render(pieces[0]) + tail && Join(trimmed) == Render(trimmed[0]) + tail;
    if pieces[0].Rule? {
      PrintedEnds(pieces[0].rule);
      LeftStripPiece(pieces[0].before, Printed(pieces[0].rule), pieces[0].after, tail);
    } else {
      assert trimmed == pieces;
    }
  }

  lemma LeftStripPiece(before: string, p: string, after: string, tail: string)
    requires Blank(before) && p != "" && !IsSpace(p[0])
    ensures LeftStrip(before + p + after + tail) == "" + p + after + tail
  {
    assert before + p + after + tail == before + (p + after + tail);
    LeftStripPadded(before, p + after + tail);
    assert "" + p + after + tail == p + after + tail;
  }

  /** `t` is `whole` without the blanks at its end. */
  predicate EndsStripped(whole: string, t: string, blanks: string) {
    whole == t + blanks && (t == "" || !IsSpace(t[|t| - 1]))
  }

  lemma EndsInText(before: string, p: string, after: string)
    requires p != "" && !IsSpace(p[|p| - 1])
    ensures EndsStripped(before + p + after + "", before + p + "" + "", after)
  {
    assert before + p + "" + "" == before + p;
  }

  lemma EndsInTail(head: string, whole: string, t: string, blanks: string)
    requires EndsStripped(whole, t, blanks)
    ensures EndsStripped(head + (";" + whole), head + (";" + t), blanks)
  {
  }

  function LastBlanks(pieces: seq<Piece>): string
    requires pieces != []
  {
    var last := pieces[|pieces| - 1];
    if last.Rule? then last.after else ""
  }

  lemma TrimEndJoins(pieces: seq<Piece>)
    requires |pieces| > 1
    ensures Join(TrimEnd(pieces)) == Render(pieces[0]) + (";" + Join(TrimEnd(pieces[1..])))
  {
    var t := TrimEnd(pieces);
    assert t[0] == pieces[0] && t[1..] == TrimEnd(pieces[1..]);
  }

  lemma StripEndOfOne(piece: Piece)
    requires IsPiece(piece)
    ensures EndsStripped(Join([piece]), Join(TrimEnd([piece])), LastBlanks([piece]))
  {
    if piece.Rule? {
      var trimmed := piece.(after := "");
      PrintedEnds(piece.rule);
      EndsInText(piece.before, Printed(piece.rule), piece.after);
      assert Join([trimmed]) == Render(trimmed) + "" && Join([piece]) == Render(piece) + "";
      assert TrimEnd([piece]) == [trimmed];
    } else {
      assert TrimEnd([piece]) == [piece] && Join([piece]) == "";
    }
  }

  lemma {:induction false} StripEnd(pieces: seq<Piece>)
    requires ArePieces(pieces) && pieces != []
    ensures EndsStripped(Join(pieces), Join(TrimEnd(pieces)), LastBlanks(pieces))
  {
    if |pieces| == 1 {
      assert pieces == [pieces[0]];
      StripEndOfOne(pieces[0]);
    } else {
      var head, rest := Render(pieces[0]), pieces[1..];
      StripEnd(rest);
      TrimEndJoins(pieces);
      assert Join(pieces) == head + (";" + Join(rest)) && LastBlanks(rest) == LastBlanks(pieces);
      EndsInTail(head, Join(rest), Join(TrimEnd(rest)), LastBlanks(pieces));
    }
  }

  lemma {:induction false} TrimEndKeepsRules(pieces: seq<Piece>)
    requires ArePieces(pieces) && pieces != []
    ensures ArePieces(TrimEnd(pieces)) && Rules(TrimEnd(pieces)) == Rules(pieces)
  {
    if |pieces| > 1 {
      TrimEndKeepsRules(pieces[1..]);
      assert TrimEnd(pieces)[1..] == TrimEnd(pieces[1..]);
    }
  }

  /** Printed rules separated by semicolons, with blanks around them and empty pieces between them,
      parse to the rules, in order. */
  lemma ParseJoined(pieces: seq<Piece>)
    requires ArePieces(pieces)
    ensures ParsePortGroup(Join(pieces)) == Ok(Rules(pieces))
  {
    if pieces == [] {
      assert Split(Strip(Join(pieces))) == [""];
      assert NonEmpty([""]) == [];
    } else {
      var started := TrimStart(pieces);
      var trimmed := TrimEnd(started);
      StripStart(pieces);
      StripEnd(started);
      TrimEndKeepsRules(started);
      RightStripPadded(Join(trimmed), LastBlanks(started));
      SplitJoin(trimmed);
      ParseRenders(trimmed);
    }
  }

  lemma {:induction false} ParsedArePortRules(pieces: seq<string>, rules: seq<RuleRequest>)
    requires ParseAll(pieces) == Ok(rules)
    ensures forall k :: 0 <= k < |rules| ==> IsPortRule(rules[k])
  {
    if pieces != [] {
      ParsedIsPortRule(Strip(pieces[0]), rules[0]);
      assert ParseAll(pieces[1..]) == Ok(rules[1..]);
      ParsedArePortRules(pieces[1..], rules[1..]);
      assert forall k :: 1 <= k < |rules| ==> rules[k] == rules[1..][k - 1];
    }
  }

  /** The rules printed plainly, one piece each. */
  function Plain(rules: seq<RuleRequest>): (pieces: seq<Piece>)
    ensures |pieces| == |rules| && forall k :: 0 <= k < |rules| ==> pieces[k] == Rule("", rules[k], "")
  {
    seq(|rules|, k requires 0 <= k < |rules| => Rule("", rules[k], ""))
  }

  lemma {:induction false} RulesOfPlain(rules: seq<RuleRequest>)
    ensures Rules(Plain(rules)) == rules
  {
    if rules != [] {
      assert Plain(rules)[1..] == Plain(rules[1..]);
      RulesOfPlain(rules[1..]);
    }
  }

  /** Printing what was accepted gives a text that parses to the same rules. */
  lemma ReprintedIsTheSame(text: string, rules: seq<RuleRequest>)
    requires ParsePortGroup(text) == Ok(rules)
    ensures ParsePortGroup(Join(Plain(rules))) == Ok(rules)
  {
    ParsedArePortRules(NonEmpty(Split(Strip(text))), rules);
    RulesOfPlain(rules);
    ParseJoined(Plain(rules));
  }

  ghost predicate Piecewise(pieces: seq<string>, rules: seq<RuleRequest>) {
    |pieces| == |rules| && forall k :: 0 <= k < |pieces| ==> SinglePortParse(Strip(pieces[k])) == Ok(rules[k])
  }

  /** A list is accepted exactly if every piece is, and gives their rules in order. */
  lemma {:induction false} AcceptedIff(pieces: seq<string>, rules: seq<RuleRequest>)
    ensures ParseAll(pieces) == Ok(rules) <==> Piecewise(pieces, rules)
  {
    if pieces != [] && rules != [] {
      AcceptedIff(pieces[1..], rules[1..]);
      assert rules == [rules[0]] + rules[1..];
      assert Piecewise(pieces, rules) <==>
        SinglePortParse(Strip(pieces[0])) == Ok(rules[0]) && Piecewise(pieces[1..], rules[1..]) by
      {
        assert forall k :: 1 <= k < |pieces| ==> pieces[k] == pieces[1..][k - 1];
        assert forall k :: 1 <= k < |rules| ==> rules[k] == rules[1..][k - 1];
        assert forall k :: 0 <= k < |pieces| - 1 ==> pieces[1..][k] == pieces[k + 1];
        assert forall k :: 0 <= k < |rules| - 1 ==> rules[1..][k] == rules[k + 1];
      }
    }
  }

  /** The error of a rejected list names the first piece that stands for no rule. */
  lemma {:induction false} FirstRejection(pieces: seq<string>, k: nat)
    requires k < |pieces| && forall j :: 0 <= j < k ==> SinglePortParse(Strip(pieces[j])).Ok?
    requires forall rule :: !Denotes(Strip(pieces[k]), rule)
    ensures ParseAll(pieces) == Raised(Rejected(Strip(pieces[k])))
  {
    if k > 0 {
      assert SinglePortParse(Strip(pieces[0])).Ok?;
      assert pieces[1..][k - 1] == pieces[k];
      FirstRejection(pieces[1..], k - 1);
    } else if SinglePortParse(Strip(pieces[0])).Ok? {
      AcceptedDenotes(Strip(pieces[0]));
    }
  }
}
