/** pksniff, user side: the filter language, its parser, the filter-bar summary and event matching. */
module FilterLanguage {
  import opened Prelude
  import opened Events

  const ADDR_LEN: nat := 16
  const MAX_FILTER: nat := 128
  const ANY_DIRECTION: byte := 255

  /** Empty text and 0 mean any; direction uses 255 for any. */
  datatype Filter = Filter(ip: string, port: u16, proto: byte, appTag: byte, direction: byte)

  const NO_FILTER := Filter("", 0, 0, 0, ANY_DIRECTION)

  // ---- library calls ----

  function Lower(c: char): char { if 'A' <= c <= 'Z' then c + 32 as char else c }

  /** `strcasecmp(a, b) == 0`. */
  predicate SameIgnoringCase(a: string, b: string) {
    |a| == |b| && forall i :: 0 <= i < |a| ==> Lower(a[i]) == Lower(b[i])
  }

  predicate IsDigit(c: char) { '0' <= c <= '9' }

  predicate IsSpace(c: char) { c == ' ' || '\t' <= c <= '\r' }

  function DigitValue(c: char): nat
    requires IsDigit(c)
  {
    c as int - '0' as int
  }

  /** The value of a string of digits. */
  function Value(s: string): nat
    requires forall i :: 0 <= i < |s| ==> IsDigit(s[i])
  {
    if s == "" then 0 else 10 * Value(s[..|s| - 1]) + DigitValue(s[|s| - 1])
  }

  function DigitRun(s: string): (n: nat)
    ensures n <= |s| && (forall i :: 0 <= i < n ==> IsDigit(s[i])) && (n < |s| ==> !IsDigit(s[n]))
  {
    if s == "" || !IsDigit(s[0]) then 0 else 1 + DigitRun(s[1..])
  }

  function SkipSpace(s: string): string {
    if s != "" && IsSpace(s[0]) then SkipSpace(s[1..]) else s
  }

  /** `atoi`, over unbounded integers. */
  function Atoi(s: string): int {
    var t := SkipSpace(s);
    if t != "" && t[0] == '-' then 0 - Value(t[1..][..DigitRun(t[1..])])
    else if t != "" && t[0] == '+' then Value(t[1..][..DigitRun(t[1..])])
    else Value(t[..DigitRun(t)])
  }

  function Digit(n: nat): char
    requires n < 10
  {
    '0' + n as char
  }

  /** "%u". */
  function Decimal(n: nat): string {
    if n < 10 then [Digit(n)] else Decimal(n / 10) + [Digit(n % 10)]
  }

  // ---- tokens ----

  /** Length of the leading word. */
  function WordEnd(s: string): (n: nat)
    ensures n <= |s| && ' ' !in s[..n] && (n < |s| ==> s[n] == ' ')
  {
    if s == "" || s[0] == ' ' then 0
    else
      assert s[..1 + WordEnd(s[1..])] == [s[0]] + s[1..][..WordEnd(s[1..])];
      1 + WordEnd(s[1..])
  }

  /** What `strtok` with " " yields: the maximal words without spaces. */
  function Tokens(s: string): seq<string>
    decreases |s|
  {
    if s == "" then []
    else if s[0] == ' ' then Tokens(s[1..])
    else [s[..WordEnd(s)]] + Tokens(s[WordEnd(s)..])
  }

  // ---- settings ----

  datatype Field = Ip | Port | Proto | App | Dir

  /** What one token asks for, if it asks for anything. */
  datatype Setting =
    | SetIp(text: string)
    | SetPort(port: u16)
    | SetProto(proto: byte)
    | SetApp(appTag: byte)
    | SetDir(direction: byte)

  function FieldOf(s: Setting): Field {
    if s.SetIp? then Ip else if s.SetPort? then Port else if s.SetProto? then Proto else if s.SetApp? then App else Dir
  }

  function ProtoNamed(name: string): Option<byte> {
    if SameIgnoringCase(name, "tcp") then Some(IPPROTO_TCP)
    else if SameIgnoringCase(name, "udp") then Some(IPPROTO_UDP)
    else if SameIgnoringCase(name, "icmp") then Some(IPPROTO_ICMP)
    else None
  }

  function AppNamed(name: string): Option<byte> {
    if SameIgnoringCase(name, "dns") then Some(APP_DNS)
    else if SameIgnoringCase(name, "http") then Some(APP_HTTP)
    else if SameIgnoringCase(name, "tls") then Some(APP_TLS)
    else None
  }

  function DirNamed(name: string): Option<byte> {
    if SameIgnoringCase(name, "in") then Some(DIR_INGRESS)
    else if SameIgnoringCase(name, "out") then Some(DIR_EGRESS)
    else None
  }

  /** The setting a token makes; an unknown key or an unknown name makes none. */
  function SettingOf(tok: string): Option<Setting> {
    if "ip:" <= tok then Some(SetIp(tok[3..][..Min(|tok| - 3, ADDR_LEN - 1)]))
    else if "port:" <= tok then Some(SetPort(Atoi(tok[5..]) % U16))
    else if "proto:" <= tok then
      var p := ProtoNamed(tok[6..]);
      if p.Some? then Some(SetProto(p.value)) else None
    else if "app:" <= tok then
      var t := AppNamed(tok[4..]);
      if t.Some? then Some(SetApp(t.value)) else None
    else if "dir:" <= tok then
      var d := DirNamed(tok[4..]);
      if d.Some? then Some(SetDir(d.value)) else None
    else None
  }

  function Apply(f: Filter, s: Setting): Filter {
    if s.SetIp? then f.(ip := s.text)
    else if s.SetPort? then f.(port := s.port)
    else if s.SetProto? then f.(proto := s.proto)
    else if s.SetApp? then f.(appTag := s.appTag)
    else f.(direction := s.direction)
  }

  function ApplyToken(f: Filter, tok: string): Filter {
    if SettingOf(tok).Some? then Apply(f, SettingOf(tok).value) else f
  }

  /** The filter after the first `n` tokens. */
  function Fold(f: Filter, toks: seq<string>, n: nat): Filter
    requires n <= |toks|
  {
    if n == 0 then f else ApplyToken(Fold(f, toks, n - 1), toks[n - 1])
  }

  /** The parser keeps at most 127 characters. */
  function Buffered(s: string): string { s[..Min(|s|, MAX_FILTER - 1)] }

  function Parse(s: string): Filter {
    var toks := Tokens(Buffered(s));
    Fold(NO_FILTER, toks, |toks|)
  }

  // ---- the filter bar ----

  function ProtoName(p: byte): string {
    if p == IPPROTO_TCP then "TCP" else if p == IPPROTO_UDP then "UDP" else if p == IPPROTO_ICMP then "ICMP" else "???"
  }

  function AppName(t: byte): string {
    if t == APP_DNS then "DNS" else if t == APP_HTTP then "HTTP" else if t == APP_TLS then "TLS"
    else if t == APP_ICMP then "ICMP" else ""
  }

  /** A piece of the summary: nothing, or a space and a token. */
  function Piece(on: bool, t: string): string { if on then " " + t else "" }

  function DirName(direction: byte): string { if direction == DIR_INGRESS then "in" else "out" }

  function Summary(f: Filter): string {
    (if f.ip != "" then "ip:" + f.ip else "")
    + Piece(f.port != 0, "port:" + Decimal(f.port))
    + Piece(f.proto != 0, "proto:" + ProtoName(f.proto))
    + Piece(f.appTag != 0, "app:" + AppName(f.appTag))
    + Piece(f.direction != ANY_DIRECTION, "dir:" + DirName(f.direction))
  }

  /** `strncat` into the 256-byte summary buffer, and `snprintf` into a 16-byte one. */
  function Appended(dst: string, src: string): string { dst + src[..Min(|src|, if |dst| < 255 then 255 - |dst| else 0)] }

  function Short(s: string): string { s[..Min(|s|, 15)] }

  // ---- the parser and the printer as programs ----

  method SkipSpaces(buf: string, pos: nat) returns (start: nat)
    requires pos <= |buf|
    ensures pos <= start <= |buf| && (start < |buf| ==> buf[start] != ' ')
    ensures Tokens(buf[pos..]) == Tokens(buf[start..])
  {
    start := pos;
    while start < |buf| && buf[start] == ' '
      invariant pos <= start <= |buf| && Tokens(buf[pos..]) == Tokens(buf[start..])
    {
      assert buf[start..][1..] == buf[start + 1..];
      start := start + 1;
    }
  }

  method SkipWord(buf: string, start: nat) returns (next: nat)
    requires start < |buf| && buf[start] != ' '
    ensures start < next <= |buf| && WordEnd(buf[start..]) == next - start
  {
    next := start + 1;
    while next < |buf| && buf[next] != ' '
      invariant start < next <= |buf|
      invariant forall k :: start <= k < next ==> buf[k] != ' '
    {
      next := next + 1;
    }
    WordEndIs(buf[start..], next - start);
  }

  /** `strtok`: the next word of buf[pos..] and where the search goes on, or None. */
  method Strtok(buf: string, pos: nat) returns (tok: Option<string>, next: nat)
    requires pos <= |buf|
    ensures next <= |buf|
    ensures match tok
            case None => Tokens(buf[pos..]) == []
            case Some(t) => next > pos && Tokens(buf[pos..]) == [t] + Tokens(buf[next..])
  {
    var start := SkipSpaces(buf, pos);
    if start == |buf| {
      return None, start;
    }
    next := SkipWord(buf, start);
    assert buf[start..][..next - start] == buf[start..next];
    assert buf[start..][next - start..] == buf[next..];
    tok := Some(buf[start..next]);
  }

  lemma WordEndIs(s: string, n: nat)
    requires n <= |s| && ' ' !in s[..n] && (n < |s| ==> s[n] == ' ')
    ensures WordEnd(s) == n
  {
    var m := WordEnd(s);
    assert forall i :: 0 <= i < n ==> s[i] in s[..n];
    assert forall i :: 0 <= i < m ==> s[i] in s[..m];
  }

  class FilterState {
    var filter: Filter

    constructor ()
      ensures filter == NO_FILTER
    {
      filter := NO_FILTER;
    }

    method ParseFilterStr(s: string)
      modifies this
      ensures filter == Parse(s)
    {
      filter := NO_FILTER;
      var buf := s[..Min(|s|, MAX_FILTER - 1)];
      ghost var toks, n := Tokens(buf), 0;
      assert buf[0..] == buf;
      var tok, pos := Strtok(buf, 0);
      while tok.Some?
        invariant 0 <= pos <= |buf| && n <= |toks|
        invariant filter == Fold(NO_FILTER, toks, n)
        invariant match tok
                  case None => n == |toks|
                  case Some(t) => toks[n..] == [t] + Tokens(buf[pos..])
        decreases |toks| - n
      {
        assert toks[n] == toks[n..][0] == tok.value;
        ApplyOne(tok.value);
        assert toks[n + 1..] == toks[n..][1..] == Tokens(buf[pos..]);
        n := n + 1;
        tok, pos := Strtok(buf, pos);
      }
    }

    /** The filter bar's summary, built piece by piece in bounded buffers. */
    method BuildSummary() returns (summary: string)
      requires |filter.ip| < ADDR_LEN
      ensures summary == Summary(filter)
    {
      PortLength(filter.port);
      summary := "";
      if filter.ip != "" {
        summary := Appended(summary, "ip:");
        summary := Appended(summary, filter.ip);
        assert summary == "ip:" + filter.ip;
      }
      summary := AppendPiece(summary, filter.port != 0, "port:" + Decimal(filter.port));
      summary := AppendPiece(summary, filter.proto != 0, "proto:" + ProtoName(filter.proto));
      summary := AppendPiece(summary, filter.appTag != 0, "app:" + AppName(filter.appTag));
      summary := AppendPiece(summary, filter.direction != ANY_DIRECTION, "dir:" + DirName(filter.direction));
    }

    static method AppendPiece(summary: string, on: bool, token: string) returns (longer: string)
      requires |summary| <= 100 && |token| < 15
      ensures longer == summary + Piece(on, token) && |longer| <= |summary| + 15
    {
      longer := summary;
      if on {
        var tmp := Short(" " + token);
        assert tmp == " " + token;
        assert tmp[..|tmp|] == tmp;
        longer := Appended(summary, tmp);
      }
    }

    /** The body of the token loop. */
    method ApplyOne(tok: string)
      modifies this
      ensures filter == ApplyToken(old(filter), tok)
    {
      if "ip:" <= tok {
        filter := filter.(ip := tok[3..][..Min(|tok| - 3, ADDR_LEN - 1)]);
      } else if "port:" <= tok {
        filter := filter.(port := Atoi(tok[5..]) % U16);
      } else if "proto:" <= tok {
        var p := tok[6..];
        if SameIgnoringCase(p, "tcp") {
          filter := filter.(proto := IPPROTO_TCP);
        } else if SameIgnoringCase(p, "udp") {
          filter := filter.(proto := IPPROTO_UDP);
        } else if SameIgnoringCase(p, "icmp") {
          filter := filter.(proto := IPPROTO_ICMP);
        }
      } else if "app:" <= tok {
        var p := tok[4..];
        if SameIgnoringCase(p, "dns") {
          filter := filter.(appTag := APP_DNS);
        } else if SameIgnoringCase(p, "http") {
          filter := filter.(appTag := APP_HTTP);
        } else if SameIgnoringCase(p, "tls") {
          filter := filter.(appTag := APP_TLS);
        }
      } else if "dir:" <= tok {
        var p := tok[4..];
        if SameIgnoringCase(p, "in") {
          filter := filter.(direction := DIR_INGRESS);
        } else if SameIgnoringCase(p, "out") {
          filter := filter.(direction := DIR_EGRESS);
        }
      }
    }
  }

  // ---- the printer and the parser undo each other ----

  /** The filters the language can express. */
  predicate Expressible(f: Filter) {
    && |f.ip| < ADDR_LEN && ' ' !in f.ip
    && (f.proto == 0 || f.proto == IPPROTO_TCP || f.proto == IPPROTO_UDP || f.proto == IPPROTO_ICMP)
    && f.appTag <= APP_TLS
    && (f.direction == ANY_DIRECTION || f.direction == DIR_INGRESS || f.direction == DIR_EGRESS)
  }

  ghost predicate Word(t: string) { t != "" && ' ' !in t }

  lemma {:induction false} TokensAreWords(s: string, k: nat)
    requires k < |Tokens(s)|
    ensures Word(Tokens(s)[k])
    decreases |s|
  {
    if s[0] == ' ' {
      TokensAreWords(s[1..], k);
    } else {
      assert s[..WordEnd(s)] != "";
      if k > 0 { TokensAreWords(s[WordEnd(s)..], k - 1); }
    }
  }

  lemma ApplyTokenExpressible(f: Filter, tok: string)
    requires Expressible(f) && Word(tok)
    ensures Expressible(ApplyToken(f, tok))
  {
    if "ip:" <= tok {
      var ip := tok[3..][..Min(|tok| - 3, ADDR_LEN - 1)];
      assert forall i :: 0 <= i < |ip| ==> ip[i] == tok[3 + i];
    }
  }

  lemma {:induction false} FoldExpressible(f: Filter, toks: seq<string>, n: nat)
    requires Expressible(f) && n <= |toks| && forall k :: 0 <= k < n ==> Word(toks[k])
    ensures Expressible(Fold(f, toks, n))
    decreases n
  {
    if n > 0 {
      FoldExpressible(f, toks, n - 1);
      ApplyTokenExpressible(Fold(f, toks, n - 1), toks[n - 1]);
    }
  }

  lemma ParseExpressible(s: string)
    ensures Expressible(Parse(s))
  {
    var toks := Tokens(Buffered(s));
    forall k | 0 <= k < |toks| ensures Word(toks[k]) {
      TokensAreWords(Buffered(s), k);
    }
    FoldExpressible(NO_FILTER, toks, |toks|);
  }

  lemma {:induction false} FoldSamePrefix(f: Filter, ts: seq<string>, us: seq<string>, n: nat)
    requires n <= |ts| && n <= |us| && forall k :: 0 <= k < n ==> ts[k] == us[k]
    ensures Fold(f, ts, n) == Fold(f, us, n)
    decreases n
  {
    if n > 0 { FoldSamePrefix(f, ts, us, n - 1); }
  }

  /** Parsing without the buffer limit. */
  ghost function ParseAll(s: string): Filter {
    Fold(NO_FILTER, Tokens(s), |Tokens(s)|)
  }

  lemma OneWord(t: string)
    requires Word(t)
    ensures Tokens(t) == [t]
  {
    assert forall i :: 0 <= i < |t| ==> t[i] in t;
    assert t[..|t|] == t;
    WordEndIs(t, |t|);
    assert t[|t|..] == "";
  }

  /** A word added after a space adds one token. */
  lemma {:induction false} TokensSnoc(s: string, t: string)
    requires Word(t)
    ensures Tokens(s + (" " + t)) == Tokens(s) + [t]
    decreases |s|
  {
    var whole := s + (" " + t);
    if s == "" {
      assert whole[1..] == t;
      OneWord(t);
    } else if s[0] == ' ' {
      assert whole[1..] == s[1..] + (" " + t);
      TokensSnoc(s[1..], t);
    } else {
      var n := WordEnd(s);
      assert whole[..n] == s[..n];
      WordEndIs(whole, n);
      assert whole[n..] == s[n..] + (" " + t);
      assert n > 0;
      TokensSnoc(s[n..], t);
      assert [s[..n]] + (Tokens(s[n..]) + [t]) == [s[..n]] + Tokens(s[n..]) + [t];
    }
  }

  lemma ParseSnoc(s: string, t: string)
    requires Word(t)
    ensures ParseAll(s + (" " + t)) == ApplyToken(ParseAll(s), t)
  {
    TokensSnoc(s, t);
    FoldSamePrefix(NO_FILTER, Tokens(s), Tokens(s) + [t], |Tokens(s)|);
  }

  lemma {:induction false} DecimalIsDigits(n: nat)
    ensures Decimal(n) != "" && forall i :: 0 <= i < |Decimal(n)| ==> IsDigit(Decimal(n)[i])
    decreases n
  {
    if n >= 10 { DecimalIsDigits(n / 10); }
  }

  lemma {:induction false} ValueOfDecimal(n: nat)
    requires forall i :: 0 <= i < |Decimal(n)| ==> IsDigit(Decimal(n)[i])
    ensures Value(Decimal(n)) == n
    decreases n
  {
    if n >= 10 {
      var d := Decimal(n);
      DecimalIsDigits(n / 10);
      ValueOfDecimal(n / 10);
      assert d[..|d| - 1] == Decimal(n / 10);
      assert DigitValue(d[|d| - 1]) == n % 10;
    } else {
      assert Decimal(n)[..0] == "";
      assert DigitValue(Decimal(n)[0]) == n;
    }
  }

  lemma {:induction false} AllDigitsRun(s: string)
    requires forall i :: 0 <= i < |s| ==> IsDigit(s[i])
    ensures DigitRun(s) == |s|
  {
  }

  lemma AtoiOfDecimal(n: nat)
    ensures Atoi(Decimal(n)) == n
  {
    DecimalIsDigits(n);
    ValueOfDecimal(n);
    AllDigitsRun(Decimal(n));
    assert IsDigit(Decimal(n)[0]);
    assert Decimal(n)[..|Decimal(n)|] == Decimal(n);
  }

  ghost function Pow10(k: nat): nat { if k == 0 then 1 else 10 * Pow10(k - 1) }

  lemma {:induction false} DecimalLength(n: nat, k: nat)
    requires k > 0 && n < Pow10(k)
    ensures |Decimal(n)| <= k
    decreases k
  {
    if n >= 10 {
      DecimalLength(n / 10, k - 1);
    }
  }

  lemma NoSpaceIn(a: string, b: string)
    requires ' ' !in a && ' ' !in b
    ensures ' ' !in a + b
  {
  }

  lemma PortSetting(d: string)
    ensures SettingOf("port:" + d) == Some(SetPort(Atoi(d) % U16))
  {
    hide Atoi;
    var tok := "port:" + d;
    assert tok[5..] == d && tok[0] == 'p';
  }

  lemma PortWord(d: string)
    requires forall i :: 0 <= i < |d| ==> IsDigit(d[i])
    ensures Word("port:" + d)
  {
    assert forall i :: 0 <= i < |d| ==> d[i] != ' ';
    NoSpaceIn("port:", d);
  }

  lemma PortToken(port: u16)
    ensures Word("port:" + Decimal(port)) && SettingOf("port:" + Decimal(port)) == Some(SetPort(port))
  {
    hide Decimal, Atoi, SettingOf, Word;
    DecimalIsDigits(port);
    PortWord(Decimal(port));
    AtoiOfDecimal(port);
    PortSetting(Decimal(port));
  }

  lemma PortLength(port: u16)
    ensures |Decimal(port)| <= 5
  {
    assert Pow10(5) == 10 * (10 * (10 * (10 * (10 * Pow10(0)))));
    DecimalLength(port, 5);
  }

  lemma ProtoToken(proto: byte)
    requires proto == IPPROTO_TCP || proto == IPPROTO_UDP || proto == IPPROTO_ICMP
    ensures Word("proto:" + ProtoName(proto)) && SettingOf("proto:" + ProtoName(proto)) == Some(SetProto(proto))
  {
    var tok := "proto:" + ProtoName(proto);
    assert tok[6..] == ProtoName(proto);
    assert "proto:" <= tok && tok[0] == 'p' && tok[1] == 'r';
  }

  lemma AppToken(tag: byte)
    requires 0 < tag <= APP_TLS
    ensures Word("app:" + AppName(tag)) && SettingOf("app:" + AppName(tag)) == Some(SetApp(tag))
  {
    var tok := "app:" + AppName(tag);
    assert tok[4..] == AppName(tag);
    assert "app:" <= tok && tok[0] == 'a';
  }

  lemma DirToken(direction: byte)
    requires direction == DIR_INGRESS || direction == DIR_EGRESS
    ensures Word("dir:" + DirName(direction)) && SettingOf("dir:" + DirName(direction)) == Some(SetDir(direction))
  {
    var tok := "dir:" + DirName(direction);
    assert tok[4..] == DirName(direction);
    assert "dir:" <= tok && tok[0] == 'd';
  }

  lemma IpToken(ip: string)
    requires ip != "" && |ip| < ADDR_LEN && ' ' !in ip
    ensures Word("ip:" + ip) && SettingOf("ip:" + ip) == Some(SetIp(ip))
  {
    var tok := "ip:" + ip;
    assert tok[3..] == ip && ip[..|ip|] == ip;
    NoSpaceIn("ip:", ip);
  }

  lemma ParsePiece(s: string, on: bool, t: string, setting: Setting)
    requires on ==> Word(t) && SettingOf(t) == Some(setting)
    ensures ParseAll(s + Piece(on, t)) == if on then Apply(ParseAll(s), setting) else ParseAll(s)
  {
    if on {
      ParseSnoc(s, t);
    } else {
      assert s + "" == s;
    }
  }

  /** The summary of an expressible filter is at most 57 characters, so no buffer cuts it. */
  lemma SummaryLength(f: Filter)
    requires |f.ip| < ADDR_LEN
    ensures |Summary(f)| <= 57
  {
    PortLength(f.port);
  }

  lemma IpPiece(ip: string)
    requires |ip| < ADDR_LEN && ' ' !in ip
    ensures ParseAll(if ip != "" then "ip:" + ip else "") == NO_FILTER.(ip := ip)
  {
    if ip != "" {
      var t := "ip:" + ip;
      IpToken(ip);
      OneWord(t);
      assert Fold(NO_FILTER, [t], 1) == ApplyToken(Fold(NO_FILTER, [t], 0), t);
    }
  }

  lemma PortPiece(s: string, port: u16)
    requires ParseAll(s).port == 0
    ensures ParseAll(s + Piece(port != 0, "port:" + Decimal(port))) == ParseAll(s).(port := port)
  {
    PortToken(port);
    ParsePiece(s, port != 0, "port:" + Decimal(port), SetPort(port));
  }

  lemma ProtoPiece(s: string, f: Filter)
    requires Expressible(f) && ParseAll(s).proto == 0
    ensures ParseAll(s + Piece(f.proto != 0, "proto:" + ProtoName(f.proto))) == ParseAll(s).(proto := f.proto)
  {
    if f.proto != 0 { ProtoToken(f.proto); }
    ParsePiece(s, f.proto != 0, "proto:" + ProtoName(f.proto), SetProto(f.proto));
  }

  lemma AppPiece(s: string, f: Filter)
    requires Expressible(f) && ParseAll(s).appTag == 0
    ensures ParseAll(s + Piece(f.appTag != 0, "app:" + AppName(f.appTag))) == ParseAll(s).(appTag := f.appTag)
  {
    if f.appTag != 0 { AppToken(f.appTag); }
    ParsePiece(s, f.appTag != 0, "app:" + AppName(f.appTag), SetApp(f.appTag));
  }

  lemma DirPiece(s: string, f: Filter)
    requires Expressible(f) && ParseAll(s).direction == ANY_DIRECTION
    ensures ParseAll(s + Piece(f.direction != ANY_DIRECTION, "dir:" + DirName(f.direction)))
         == ParseAll(s).(direction := f.direction)
  {
    if f.direction != ANY_DIRECTION { DirToken(f.direction); }
    ParsePiece(s, f.direction != ANY_DIRECTION, "dir:" + DirName(f.direction), SetDir(f.direction));
  }

  /** Parsing the summary of an expressible filter gives the filter back. */
  lemma SummaryParsesBack(f: Filter)
    requires Expressible(f)
    ensures Parse(Summary(f)) == f
  {
    var s0 := if f.ip != "" then "ip:" + f.ip else "";
    var s1 := s0 + Piece(f.port != 0, "port:" + Decimal(f.port));
    var s2 := s1 + Piece(f.proto != 0, "proto:" + ProtoName(f.proto));
    var s3 := s2 + Piece(f.appTag != 0, "app:" + AppName(f.appTag));
    IpPiece(f.ip);
    PortPiece(s0, f.port);
    ProtoPiece(s1, f);
    AppPiece(s2, f);
    DirPiece(s3, f);
    SummaryLength(f);
    assert Buffered(Summary(f)) == Summary(f);
  }

  /** For every filter string, parsing what the filter bar then shows gives the same filter. */
  lemma FilterBarRoundTrip(s: string)
    ensures Parse(Summary(Parse(s))) == Parse(s)
  {
    ParseExpressible(s);
    SummaryParsesBack(Parse(s));
  }

  /** The language expresses exactly these filters. */
  lemma ExpressibleExactly(f: Filter)
    ensures Expressible(f) <==> exists s :: Parse(s) == f
  {
    if Expressible(f) {
      SummaryParsesBack(f);
    }
    forall s ensures Expressible(Parse(s)) {
      ParseExpressible(s);
    }
  }

  // ---- parsing is a fold per field ----

  /** The settings made by the first `n` tokens, in order. */
  ghost function Effective(toks: seq<string>, n: nat): seq<Setting>
    requires n <= |toks|
  {
    if n == 0 then []
    else if SettingOf(toks[n - 1]).Some? then Effective(toks, n - 1) + [SettingOf(toks[n - 1]).value]
    else Effective(toks, n - 1)
  }

  ghost function ApplyAll(ss: seq<Setting>, n: nat): Filter
    requires n <= |ss|
  {
    if n == 0 then NO_FILTER else Apply(ApplyAll(ss, n - 1), ss[n - 1])
  }

  lemma {:induction false} ApplyAllPrefix(ss: seq<Setting>, s: Setting, n: nat)
    requires n <= |ss|
    ensures ApplyAll(ss + [s], n) == ApplyAll(ss, n)
    decreases n
  {
    if n > 0 { ApplyAllPrefix(ss, s, n - 1); }
  }

  lemma {:induction false} FoldAppliesSettings(toks: seq<string>, n: nat)
    requires n <= |toks|
    ensures Fold(NO_FILTER, toks, n) == ApplyAll(Effective(toks, n), |Effective(toks, n)|)
    decreases n
  {
    if n > 0 {
      FoldAppliesSettings(toks, n - 1);
      var s := SettingOf(toks[n - 1]);
      if s.Some? {
        var before := Effective(toks, n - 1);
        ApplyAllPrefix(before, s.value, |before|);
      }
    }
  }

  /** A field's value, as the setting that would make it. */
  function ValueIn(f: Filter, field: Field): Setting {
    if field == Ip then SetIp(f.ip)
    else if field == Port then SetPort(f.port)
    else if field == Proto then SetProto(f.proto)
    else if field == App then SetApp(f.appTag)
    else SetDir(f.direction)
  }

  /** The last setting of a field among the first `n`, or the field's default. */
  ghost function LastOf(ss: seq<Setting>, n: nat, field: Field): Setting
    requires n <= |ss|
  {
    if n == 0 then ValueIn(NO_FILTER, field)
    else if FieldOf(ss[n - 1]) == field then ss[n - 1]
    else LastOf(ss, n - 1, field)
  }

  /** Each field of the result is its last setting. */
  lemma {:induction false} FieldIsLastSetting(ss: seq<Setting>, n: nat, field: Field)
    requires n <= |ss|
    ensures ValueIn(ApplyAll(ss, n), field) == LastOf(ss, n, field)
    decreases n
  {
    if n > 0 { FieldIsLastSetting(ss, n - 1, field); }
  }

  /** The settings of one field, in order. */
  ghost function OfField(ss: seq<Setting>, n: nat, field: Field): seq<Setting>
    requires n <= |ss|
  {
    if n == 0 then []
    else if FieldOf(ss[n - 1]) == field then OfField(ss, n - 1, field) + [ss[n - 1]]
    else OfField(ss, n - 1, field)
  }

  lemma {:induction false} LastOfField(ss: seq<Setting>, n: nat, field: Field)
    requires n <= |ss|
    ensures var all := OfField(ss, n, field);
            LastOf(ss, n, field) == LastFrom(all, field)
    decreases n
  {
    if n > 0 { LastOfField(ss, n - 1, field); }
  }

  ghost function LastFrom(own: seq<Setting>, field: Field): Setting {
    if own == [] then ValueIn(NO_FILTER, field) else own[|own| - 1]
  }

  /** A field depends on its own settings only, and on the last of them. */
  lemma FieldFromOwnSettings(ss: seq<Setting>, field: Field)
    ensures ValueIn(ApplyAll(ss, |ss|), field) == LastFrom(OfField(ss, |ss|, field), field)
  {
    LastOfField(ss, |ss|, field);
    FieldIsLastSetting(ss, |ss|, field);
  }

  lemma SameValues(f: Filter, g: Filter)
    requires forall field: Field :: ValueIn(f, field) == ValueIn(g, field)
    ensures f == g
  {
    assert ValueIn(f, Ip) == ValueIn(g, Ip) && ValueIn(f, Port) == ValueIn(g, Port) && ValueIn(f, Proto) == ValueIn(g, Proto);
    assert ValueIn(f, App) == ValueIn(g, App) && ValueIn(f, Dir) == ValueIn(g, Dir);
  }

  /** The settings a filter string makes. */
  ghost function SettingsIn(s: string): seq<Setting> {
    var toks := Tokens(Buffered(s));
    Effective(toks, |toks|)
  }

  /** Reordering tokens of different fields never changes the parsed filter, hence not which events match:
      the filter is determined by the order of the settings within each field. */
  lemma ReorderingIsHarmless(a: string, b: string)
    requires forall field: Field ::
               OfField(SettingsIn(a), |SettingsIn(a)|, field) == OfField(SettingsIn(b), |SettingsIn(b)|, field)
    ensures Parse(a) == Parse(b)
  {
    FoldAppliesSettings(Tokens(Buffered(a)), |Tokens(Buffered(a))|);
    FoldAppliesSettings(Tokens(Buffered(b)), |Tokens(Buffered(b))|);
    forall field: Field ensures ValueIn(Parse(a), field) == ValueIn(Parse(b), field) {
      FieldFromOwnSettings(SettingsIn(a), field);
      FieldFromOwnSettings(SettingsIn(b), field);
    }
    SameValues(Parse(a), Parse(b));
  }

  // ---- matching ----

  /** `inet_ntop` on a little-endian machine: the low byte comes first. */
  function AddressText(ip: u32): string {
    Decimal(ip % 256) + "." + Decimal(ip / 0x100 % 256) + "." + Decimal(ip / 0x1_0000 % 256) + "." + Decimal(ip / 0x100_0000)
  }

  /** Does an event meet one field of the filter? A field at its default is met by every event. */
  predicate Meets(f: Filter, field: Field, h: Header) {
    if field == Ip then f.ip == "" || Contains(AddressText(h.srcIp), f.ip) || Contains(AddressText(h.dstIp), f.ip)
    else if field == Port then f.port == 0 || h.srcPort == f.port || h.dstPort == f.port
    else if field == Proto then f.proto == 0 || h.ipProto == f.proto
    else if field == App then f.appTag == 0 || h.appTag == f.appTag
    else f.direction == ANY_DIRECTION || h.direction == f.direction
  }

  /** Tokens are and-ed: an event matches when it meets every field. */
  ghost predicate Matches(f: Filter, e: Event) {
    forall field: Field :: Meets(f, field, e.header)
  }

  method EventMatches(f: Filter, e: Event) returns (b: bool)
    ensures b == Matches(f, e)
  {
    var h := e.header;
    b := MatchesFields(f, h);
    assert Meets(f, Ip, h) && Meets(f, Port, h) && Meets(f, Proto, h) && Meets(f, App, h) && Meets(f, Dir, h)
           <==> forall field: Field :: Meets(f, field, h);
  }

  method MatchesFields(f: Filter, h: Header) returns (b: bool)
    ensures b <==> Meets(f, Ip, h) && Meets(f, Port, h) && Meets(f, Proto, h) && Meets(f, App, h) && Meets(f, Dir, h)
  {
    if f.ip != "" {
      var src, dst := AddressText(h.srcIp), AddressText(h.dstIp);
      if !Contains(src, f.ip) && !Contains(dst, f.ip) {
        return false;
      }
    }
    if f.port != 0 {
      if h.srcPort != f.port && h.dstPort != f.port {
        return false;
      }
    }
    if f.proto != 0 {
      if h.ipProto != f.proto {
        return false;
      }
    }
    if f.appTag != 0 {
      if h.appTag != f.appTag {
        return false;
      }
    }
    if f.direction != ANY_DIRECTION {
      if h.direction != f.direction {
        return false;
      }
    }
    return true;
  }
}
