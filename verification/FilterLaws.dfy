/** pksniff, user side: what a typed filter token means, told by its text and the fields of an event. */
module FilterLaws {
  import opened Prelude
  import opened Events
  import opened FilterLanguage

  // ---- tokens ----

  /** `name` spells the lower-case word, in small or capital letters. */
  predicate Spells(name: string, word: string) {
    && |name| == |word|
    && forall i :: 0 <= i < |name| ==> name[i] == word[i] || name[i] as int + 32 == word[i] as int
  }

  predicate LowerCase(word: string) { forall i :: 0 <= i < |word| ==> 'a' <= word[i] <= 'z' }

  lemma CaseIgnored(name: string, word: string)
    requires LowerCase(word)
    ensures SameIgnoringCase(name, word) <==> Spells(name, word)
  {
    if |name| == |word| {
      forall i | 0 <= i < |name|
        ensures Lower(name[i]) == Lower(word[i]) <==> name[i] == word[i] || name[i] as int + 32 == word[i] as int
      {
      }
    }
  }

  /** An address text is kept up to 15 characters. */
  lemma IpSetting(text: string)
    ensures SettingOf("ip:" + text) == Some(SetIp(if |text| <= 15 then text else text[..15]))
  {
    var tok := "ip:" + text;
    assert tok[3..] == text;
    assert |text| <= 15 ==> text[..|text|] == text;
  }

  lemma ProtoSetting(name: string)
    ensures SettingOf("proto:" + name) ==
            if Spells(name, "tcp") then Some(SetProto(6))
            else if Spells(name, "udp") then Some(SetProto(17))
            else if Spells(name, "icmp") then Some(SetProto(1))
            else None
  {
    var tok := "proto:" + name;
    assert tok[6..] == name && tok[0] == 'p' && tok[1] == 'r';
    CaseIgnored(name, "tcp");
    CaseIgnored(name, "udp");
    CaseIgnored(name, "icmp");
  }

  lemma AppSetting(name: string)
    ensures SettingOf("app:" + name) ==
            if Spells(name, "dns") then Some(SetApp(1))
            else if Spells(name, "http") then Some(SetApp(2))
            else if Spells(name, "tls") then Some(SetApp(3))
            else None
  {
    var tok := "app:" + name;
    assert tok[4..] == name && tok[0] == 'a';
    CaseIgnored(name, "dns");
    CaseIgnored(name, "http");
    CaseIgnored(name, "tls");
  }

  lemma DirSetting(name: string)
    ensures SettingOf("dir:" + name) ==
            if Spells(name, "in") then Some(SetDir(0)) else if Spells(name, "out") then Some(SetDir(1)) else None
  {
    var tok := "dir:" + name;
    assert tok[4..] == name && tok[0] == 'd';
    CaseIgnored(name, "in");
    CaseIgnored(name, "out");
  }

  /** Any other token sets nothing. */
  lemma OtherTokens(tok: string)
    requires !("ip:" <= tok) && !("port:" <= tok) && !("proto:" <= tok) && !("app:" <= tok) && !("dir:" <= tok)
    ensures SettingOf(tok) == None
  {
  }

  /** Only the first 127 characters are read. */
  lemma LongFilterCut(s: string)
    ensures Parse(s) == ParseAll(if |s| <= 127 then s else s[..127])
  {
    assert |s| <= 127 ==> s[..|s|] == s;
  }

  // ---- matching ----

  /** `text` is part of the dotted form of an address. */
  ghost predicate PartOf(text: string, address: u32) {
    exists before, after :: AddressText(address) == before + text + after
  }

  /** The matching rule on the fields of the event. */
  lemma MatchesExactly(f: Filter, e: Event)
    ensures Matches(f, e) <==>
            var h := e.header;
            && (f.ip == "" || PartOf(f.ip, h.srcIp) || PartOf(f.ip, h.dstIp))
            && (f.port == 0 || h.srcPort == f.port || h.dstPort == f.port)
            && (f.proto == 0 || h.ipProto == f.proto)
            && (f.appTag == 0 || h.appTag == f.appTag)
            && (f.direction == 255 || h.direction == f.direction)
  {
    var h := e.header;
    ContainsExactly(AddressText(h.srcIp), f.ip);
    ContainsExactly(AddressText(h.dstIp), f.ip);
    assert Matches(f, e) <==> Meets(f, Ip, h) && Meets(f, Port, h) && Meets(f, Proto, h) && Meets(f, App, h) && Meets(f, Dir, h);
  }

  // ---- one typed token ----

  lemma OneToken(tok: string, s: Option<Setting>)
    requires Word(tok) && |tok| <= 127 && SettingOf(tok) == s
    ensures Parse(tok) == if s.Some? then Apply(NO_FILTER, s.value) else NO_FILTER
  {
    LongFilterCut(tok);
    OneWord(tok);
    assert Fold(NO_FILTER, [tok], 1) == ApplyToken(Fold(NO_FILTER, [tok], 0), tok);
  }

  /** Without a filter every event is listed. */
  lemma NoFilterMatchesAll(e: Event)
    ensures Matches(NO_FILTER, e) && Parse("") == NO_FILTER
  {
    MatchesExactly(NO_FILTER, e);
  }

  /** "port:n" lists the events with that port on either side; 0 lists all. */
  lemma TypedPort(port: u16, e: Event)
    ensures Matches(Parse("port:" + Decimal(port)), e) <==> port == 0 || e.header.srcPort == port || e.header.dstPort == port
  {
    hide Matches, Decimal, Parse, SettingOf;
    PortToken(port);
    PortLength(port);
    OneToken("port:" + Decimal(port), Some(SetPort(port)));
    MatchesExactly(NO_FILTER.(port := port), e);
  }

  /** "ip:text" lists the events whose source or destination shows the text, cut to 15 characters. */
  lemma TypedIp(text: string, e: Event)
    requires ' ' !in text && |text| <= 124
    ensures var kept := if |text| <= 15 then text else text[..15];
            Matches(Parse("ip:" + text), e) <==> text == "" || PartOf(kept, e.header.srcIp) || PartOf(kept, e.header.dstIp)
  {
    hide Matches, Parse, SettingOf, PartOf;
    var kept := if |text| <= 15 then text else text[..15];
    IpSetting(text);
    NoSpaceIn("ip:", text);
    OneToken("ip:" + text, Some(SetIp(kept)));
    MatchesExactly(NO_FILTER.(ip := kept), e);
  }

  /** "proto:name" lists the events of that protocol; an unknown name lists all. */
  lemma TypedProto(name: string, e: Event)
    requires ' ' !in name && |name| <= 121
    ensures Matches(Parse("proto:" + name), e) <==>
            && (Spells(name, "tcp") ==> e.header.ipProto == 6)
            && (Spells(name, "udp") ==> e.header.ipProto == 17)
            && (Spells(name, "icmp") ==> e.header.ipProto == 1)
  {
    hide Matches, Parse, SettingOf;
    ProtoSetting(name);
    NoSpaceIn("proto:", name);
    OneToken("proto:" + name, SettingOf("proto:" + name));
    MatchesExactly(Parse("proto:" + name), e);
    SpellsOne(name, "tcp", "udp");
  }

  /** Two different words of one length are not spelled by the same name. */
  lemma SpellsOne(name: string, a: string, b: string)
    requires |a| == |b| > 0 && LowerCase(a) && LowerCase(b) && a[0] != b[0]
    ensures !(Spells(name, a) && Spells(name, b))
  {
  }

  /** "app:name" lists the events with that application tag; an unknown name lists all. */
  lemma TypedApp(name: string, e: Event)
    requires ' ' !in name && |name| <= 123
    ensures Matches(Parse("app:" + name), e) <==>
            && (Spells(name, "dns") ==> e.header.appTag == 1)
            && (Spells(name, "http") ==> e.header.appTag == 2)
            && (Spells(name, "tls") ==> e.header.appTag == 3)
  {
    hide Matches, Parse, SettingOf;
    AppSetting(name);
    NoSpaceIn("app:", name);
    OneToken("app:" + name, SettingOf("app:" + name));
    MatchesExactly(Parse("app:" + name), e);
    SpellsOne(name, "dns", "tls");
  }

  /** "dir:in" lists what comes in, "dir:out" what goes out; an unknown name lists all. */
  lemma TypedDir(name: string, e: Event)
    requires ' ' !in name && |name| <= 123
    ensures Matches(Parse("dir:" + name), e) <==>
            && (Spells(name, "in") ==> e.header.direction == 0)
            && (Spells(name, "out") ==> e.header.direction == 1)
  {
    hide Matches, Parse, SettingOf;
    DirSetting(name);
    NoSpaceIn("dir:", name);
    OneToken("dir:" + name, SettingOf("dir:" + name));
    MatchesExactly(Parse("dir:" + name), e);
  }
}
