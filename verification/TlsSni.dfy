/** pksniff, kernel side: the ClientHello walk that fills tls_sni
    (RFC 8446 section 4.1.2, RFC 6066 section 3). */
module TlsSni {
  import opened Prelude

  const MAX_TLS_SNI: nat := 64
  const SNI_COPY: nat := 16
  const MAX_EXTENSIONS: nat := 16
  const HELLO_HEAD: nat := 43

  // ---- what the walk finds, for any frame whatever ----

  /** A two-byte number in the frame. */
  function Num16(frame: Frame, pos: nat): u16
    requires pos + 2 <= |frame|
  {
    Be16(frame[pos], frame[pos + 1])
  }

  /** Where the extension list starts and ends, if the walk gets that far. */
  function ExtensionList(frame: Frame, payload: nat): Option<(nat, nat)> {
    var sid := payload + HELLO_HEAD;
    if sid >= |frame| || frame[payload] != 0x16 || frame[payload + 5] != 0x01 then None
    else
      var cs := sid + 1 + frame[sid];
      if cs + 2 > |frame| then None
      else
        var cm := cs + 2 + Num16(frame, cs);
        if cm >= |frame| then None
        else
          var ext := cm + 1 + frame[cm];
          if ext + 2 > |frame| then None
          else Some((ext + 2, Min(ext + 2 + Num16(frame, ext), |frame|)))
  }

  /** The host-name bytes copied from a server_name extension whose data starts at `pos`. */
  function HostBytes(frame: Frame, pos: nat, end: nat): Option<seq<byte>>
    requires end <= |frame|
  {
    if pos + 5 > end then None
    else
      var named := Num16(frame, pos + 3);
      var kept := if named >= MAX_TLS_SNI then MAX_TLS_SNI - 1 else named;
      if named == 0 || pos + 5 + kept > end then None
      else Some(frame[pos + 5..pos + 5 + Min(kept, SNI_COPY)])
  }

  /** The walk over at most `n` more extensions. */
  function WalkExtensions(frame: Frame, pos: nat, end: nat, n: nat): Option<seq<byte>>
    requires end <= |frame|
    decreases end - pos
  {
    if n == 0 || pos + 4 > end then None
    else if Num16(frame, pos) == 0 then HostBytes(frame, pos + 4, end)
    else WalkExtensions(frame, pos + 4 + Num16(frame, pos + 2), end, n - 1)
  }

  /** The bytes the parser copies, if it copies any. */
  function Sni(frame: Frame, payload: nat): Option<seq<byte>> {
    match ExtensionList(frame, payload)
    case None => None
    case Some((pos, end)) => WalkExtensions(frame, pos, end, MAX_EXTENSIONS)
  }

  /** A buffer after the copy: no NUL follows a short name, but byte 15 is always cleared. */
  function Overlaid(buf: seq<byte>, name: seq<byte>): (r: seq<byte>)
    requires |name| <= SNI_COPY < |buf|
    ensures |r| == |buf|
  {
    (name + buf[|name|..])[SNI_COPY - 1 := 0]
  }

  lemma {:induction false} WalkBound(frame: Frame, pos: nat, end: nat, n: nat)
    requires end <= |frame|
    ensures var w := WalkExtensions(frame, pos, end, n); w.Some? ==> 1 <= |w.value| <= SNI_COPY
    decreases n
  {
    if n > 0 && pos + 4 <= end && Num16(frame, pos) != 0 {
      WalkBound(frame, pos + 4 + Num16(frame, pos + 2), end, n - 1);
    }
  }

  /** Where the walk's position ends up. */
  ghost function ExtensionStop(frame: Frame, pos: nat, end: nat, n: nat): nat
    requires end <= |frame|
    decreases end - pos
  {
    if n == 0 || pos + 4 > end then pos
    else if Num16(frame, pos) == 0 then pos + 4
    else ExtensionStop(frame, pos + 4 + Num16(frame, pos + 2), end, n - 1)
  }

  lemma {:induction false} ExtensionStopBound(frame: Frame, pos: nat, end: nat, n: nat)
    requires end <= |frame|
    ensures pos <= ExtensionStop(frame, pos, end, n) <= pos + 65539 * n
    decreases n
  {
    if n > 0 && pos + 4 <= end && Num16(frame, pos) != 0 {
      ExtensionStopBound(frame, pos + 4 + Num16(frame, pos + 2), end, n - 1);
    }
  }

  lemma SniBound(frame: Frame, payload: nat)
    ensures Sni(frame, payload).Some? ==> 1 <= |Sni(frame, payload).value| <= SNI_COPY
  {
    var list := ExtensionList(frame, payload);
    if list.Some? {
      WalkBound(frame, list.value.0, list.value.1, MAX_EXTENSIONS);
    }
  }

  // ---- the parser ----

  /** Skips session id, cipher suites and compression methods. */
  method FindExtensions(frame: Frame, payload: u16) returns (list: Option<(nat, nat)>)
    ensures list == ExtensionList(frame, payload)
    ensures list.Some? ==> list.value.0 <= payload + 66094 && list.value.1 <= |frame|
  {
    if payload + 5 > |frame| {
      return None;
    }
    var rec := Load(frame, payload, 6);
    if rec.None? || rec.value[0] != 0x16 || rec.value[5] != 0x01 {
      return None;
    }
    var pos: nat := payload + 5 + 4 + 2 + 32;
    if pos + 1 > |frame| {
      return None;
    }
    var sidLen := Load(frame, pos, 1);
    if sidLen.None? {
      return None;
    }
    pos := pos + 1 + sidLen.value[0];
    if pos + 2 > |frame| {
      return None;
    }
    var cs := Load(frame, pos, 2);
    if cs.None? {
      return None;
    }
    pos := pos + 2 + Be16(cs.value[0], cs.value[1]);
    if pos + 1 > |frame| {
      return None;
    }
    var cmLen := Load(frame, pos, 1);
    if cmLen.None? {
      return None;
    }
    pos := pos + 1 + cmLen.value[0];
    if pos + 2 > |frame| {
      return None;
    }
    var extTot := Load(frame, pos, 2);
    if extTot.None? {
      return None;
    }
    pos := pos + 2;
    var extEnd := pos + Be16(extTot.value[0], extTot.value[1]);
    if extEnd > |frame| {
      extEnd := |frame|;
    }
    list := Some((pos, extEnd));
  }

  /** The server_name branch of the extension loop. */
  method CopyHostName(frame: Frame, pos: nat, extEnd: nat, out: array<byte>)
    requires out.Length == MAX_TLS_SNI && extEnd <= |frame|
    modifies out
    ensures match HostBytes(frame, pos, extEnd)
            case None => out[..] == old(out[..])
            case Some(name) => |name| <= SNI_COPY && out[..] == Overlaid(old(out[..]), name)
  {
    if pos + 5 > extEnd {
      return;
    }
    var hdr := Load(frame, pos, 5);
    if hdr.None? {
      return;
    }
    var nameLen := Be16(hdr.value[3], hdr.value[4]);
    if nameLen == 0 {
      return;
    }
    if nameLen >= out.Length {
      nameLen := out.Length - 1;
    }
    if pos + 5 + nameLen > extEnd {
      return;
    }
    ghost var name := HostBytes(frame, pos, extEnd).value;
    var c := 0;
    while c < SNI_COPY
      invariant c <= |name| == Min(nameLen, SNI_COPY)
      invariant forall k :: 0 <= k < c ==> out[k] == name[k]
      invariant forall k :: c <= k < out.Length ==> out[k] == old(out[k])
    {
      if c >= nameLen {
        break;
      }
      var ch := Load(frame, pos + 5 + c, 1);
      if ch.None? {
        break;
      }
      assert ch.value[0] == frame[pos + 5 + c] == name[c];
      out[c] := ch.value[0];
      c := c + 1;
    }
    out[SNI_COPY - 1] := 0;
    assert c == |name|;
    assert out[..] == Overlaid(old(out[..]), name);
  }

  /** `last` is the final position; it never gets near wrapping around in 32 bits. */
  method ParseTlsSni(frame: Frame, payload: u16, out: array<byte>) returns (ghost last: nat)
    requires out.Length == MAX_TLS_SNI
    modifies out
    ensures last == match ExtensionList(frame, payload)
                    case None => payload
                    case Some((pos, end)) => ExtensionStop(frame, pos, end, MAX_EXTENSIONS)
    ensures last <= payload + 1114718
    ensures match Sni(frame, payload)
            case None => out[..] == old(out[..])
            case Some(name) => |name| <= SNI_COPY && out[..] == Overlaid(old(out[..]), name)
  {
    last := payload;
    var list := FindExtensions(frame, payload);
    if list.None? {
      return;
    }
    var (pos, extEnd) := list.value;
    ghost var n := MAX_EXTENSIONS;
    last := ExtensionStop(frame, pos, extEnd, n);
    ExtensionStopBound(frame, pos, extEnd, n);
    for ext := 0 to MAX_EXTENSIONS
      invariant n == MAX_EXTENSIONS - ext && 0 <= pos <= last == ExtensionStop(frame, pos, extEnd, n)
      invariant Sni(frame, payload) == WalkExtensions(frame, pos, extEnd, n)
      invariant out[..] == old(out[..])
    {
      if pos + 4 > extEnd {
        break;
      }
      var etype := Load(frame, pos, 4);
      if etype.None? {
        break;
      }
      var extType := Be16(etype.value[0], etype.value[1]);
      var extLen := Be16(etype.value[2], etype.value[3]);
      assert extType == Num16(frame, pos) && extLen == Num16(frame, pos + 2);
      pos := pos + 4;
      if extType == 0 {
        assert pos == last;
        CopyHostName(frame, pos, extEnd, out);
        return;
      }
      assert WalkExtensions(frame, pos - 4, extEnd, n) == WalkExtensions(frame, pos + extLen, extEnd, n - 1);
      pos := pos + extLen;
      n := n - 1;
      ExtensionStopBound(frame, pos, extEnd, n);
    }
    assert pos == last;
  }

  // ---- well-formed hellos ----

  datatype Extension = Extension(typ: u16, data: seq<byte>)

  /** One ClientHello in one record. `head` is everything before the session id: record header, handshake
      header, version and random; the walk reads only its content type and handshake type. */
  datatype Hello = Hello(head: seq<byte>, sessionId: seq<byte>, ciphers: seq<byte>, compressions: seq<byte>,
                         extensions: seq<Extension>)

  ghost predicate WellFormedExtensions(xs: seq<Extension>) {
    forall i :: 0 <= i < |xs| ==> |xs[i].data| < U16
  }

  ghost predicate WellFormed(h: Hello) {
    && |h.head| == HELLO_HEAD && h.head[0] == 0x16 && h.head[5] == 0x01
    && |h.sessionId| < 256 && |h.ciphers| < U16 && |h.compressions| < 256
    && WellFormedExtensions(h.extensions) && |EncodeExtensions(h.extensions)| < U16
  }

  /** A field with a one-byte length in front, and what follows it. */
  function With8(field: seq<byte>, rest: seq<byte>): seq<byte>
    requires |field| < 256
  {
    [AsByte(|field|)] + (field + rest)
  }

  /** A field with a two-byte length in front, and what follows it. */
  function With16(field: seq<byte>, rest: seq<byte>): seq<byte>
    requires |field| < U16
  {
    ToBe16(|field|) + (field + rest)
  }

  ghost function EncodeExtensions(xs: seq<Extension>): seq<byte>
    requires WellFormedExtensions(xs)
  {
    if xs == [] then [] else ToBe16(xs[0].typ) + With16(xs[0].data, EncodeExtensions(xs[1..]))
  }

  ghost function EncodeHello(h: Hello): seq<byte>
    requires WellFormed(h)
  {
    h.head + With8(h.sessionId, With16(h.ciphers, With8(h.compressions, With16(EncodeExtensions(h.extensions), []))))
  }

  /** Where the extensions start in a hello. */
  function ListOffset(h: Hello): nat { 49 + |h.sessionId| + |h.ciphers| + |h.compressions| }

  /** Where the k-th extension starts in the list. */
  ghost function ExtensionOffset(xs: seq<Extension>, k: nat): nat
    requires k <= |xs|
  {
    if k == 0 then 0 else 4 + |xs[0].data| + ExtensionOffset(xs[1..], k - 1)
  }

  /** A server_name extension, with any list length and name type in front of the first name and anything behind it. */
  ghost function HostExtension(front: seq<byte>, name: seq<byte>, more: seq<byte>): Extension
    requires |name| < U16
  {
    Extension(0, front + (ToBe16(|name|) + (name + more)))
  }

  /** A server_name extension that names one host. */
  ghost function ServerName(name: seq<byte>): Extension
    requires |name| + 5 < U16
  {
    Extension(0, ToBe16(|name| + 3) + ([0] + (ToBe16(|name|) + name)))
  }

  lemma Num16At(frame: Frame, pos: nat, n: u16)
    requires At(frame, pos, ToBe16(n))
    ensures Num16(frame, pos) == n
  {
    assert frame[pos + 0] == ToBe16(n)[0] && frame[pos + 1] == ToBe16(n)[1];
  }

  lemma Field8(frame: Frame, pos: nat, field: seq<byte>, rest: seq<byte>)
    requires |field| < 256 && At(frame, pos, With8(field, rest))
    ensures pos + 1 + |field| <= |frame| && frame[pos] == |field| && At(frame, pos + 1 + |field|, rest)
  {
    AtSplit(frame, pos, [AsByte(|field|)], field + rest);
    assert frame[pos + 0] == [AsByte(|field|)][0];
    AtSplit(frame, pos + 1, field, rest);
  }

  lemma Field16(frame: Frame, pos: nat, field: seq<byte>, rest: seq<byte>)
    requires |field| < U16 && At(frame, pos, With16(field, rest))
    ensures pos + 2 + |field| <= |frame| && Num16(frame, pos) == |field|
    ensures At(frame, pos + 2, field) && At(frame, pos + 2 + |field|, rest)
  {
    AtSplit(frame, pos, ToBe16(|field|), field + rest);
    Num16At(frame, pos, |field|);
    AtSplit(frame, pos + 2, field, rest);
  }

  /** From the compression list on. */
  lemma TailFound(frame: Frame, cm: nat, compressions: seq<byte>, exts: seq<byte>)
    requires |compressions| < 256 && |exts| < U16
    requires At(frame, cm, With8(compressions, With16(exts, [])))
    ensures cm < |frame| && frame[cm] == |compressions|
    ensures var ext := cm + 1 + frame[cm];
            ext + 2 + |exts| <= |frame| && Num16(frame, ext) == |exts| && At(frame, ext + 2, exts)
  {
    Field8(frame, cm, compressions, With16(exts, []));
    Field16(frame, cm + 1 + frame[cm], exts, []);
  }

  /** From the session id on. */
  lemma FieldsFound(frame: Frame, sid: nat, sessionId: seq<byte>, ciphers: seq<byte>, rest: seq<byte>)
    requires |sessionId| < 256 && |ciphers| < U16
    requires At(frame, sid, With8(sessionId, With16(ciphers, rest)))
    ensures sid < |frame| && frame[sid] == |sessionId|
    ensures var cs := sid + 1 + frame[sid];
            cs + 2 + |ciphers| <= |frame| && Num16(frame, cs) == |ciphers| && At(frame, cs + 2 + Num16(frame, cs), rest)
  {
    Field8(frame, sid, sessionId, With16(ciphers, rest));
    Field16(frame, sid + 1 + frame[sid], ciphers, rest);
  }

  lemma HeadFound(frame: Frame, payload: nat, head: seq<byte>, rest: seq<byte>)
    requires |head| == HELLO_HEAD && At(frame, payload, head + rest)
    ensures payload + HELLO_HEAD <= |frame| && frame[payload] == head[0] && frame[payload + 5] == head[5]
    ensures At(frame, payload + HELLO_HEAD, rest)
  {
    AtSplit(frame, payload, head, rest);
    assert frame[payload + 0] == head[0] && frame[payload + 5] == head[5];
  }

  /** The arithmetic of the walk over the fixed fields. */
  lemma ListAt(frame: Frame, payload: nat, cs: nat, cm: nat, ext: nat, len: nat)
    requires payload + HELLO_HEAD < |frame| && frame[payload] == 0x16 && frame[payload + 5] == 0x01
    requires cs == payload + HELLO_HEAD + 1 + frame[payload + HELLO_HEAD] && cs + 2 <= |frame|
    requires cm == cs + 2 + Num16(frame, cs) && cm < |frame|
    requires ext == cm + 1 + frame[cm] && ext + 2 + len <= |frame| && Num16(frame, ext) == len
    ensures ExtensionList(frame, payload) == Some((ext + 2, ext + 2 + len))
  {
  }

  lemma PartsFound(frame: Frame, payload: nat, head: seq<byte>, sessionId: seq<byte>, ciphers: seq<byte>,
                   compressions: seq<byte>, exts: seq<byte>) returns (pos: nat)
    requires |head| == HELLO_HEAD && head[0] == 0x16 && head[5] == 0x01
    requires |sessionId| < 256 && |ciphers| < U16 && |compressions| < 256 && |exts| < U16
    requires At(frame, payload, head + With8(sessionId, With16(ciphers, With8(compressions, With16(exts, [])))))
    ensures ExtensionList(frame, payload) == Some((pos, pos + |exts|)) && At(frame, pos, exts)
    ensures pos == payload + 49 + |sessionId| + |ciphers| + |compressions|
  {
    var lists := With8(compressions, With16(exts, []));
    var sid := payload + HELLO_HEAD;
    HeadFound(frame, payload, head, With8(sessionId, With16(ciphers, lists)));
    FieldsFound(frame, sid, sessionId, ciphers, lists);
    var cs := sid + 1 + frame[sid];
    var cm := cs + 2 + Num16(frame, cs);
    TailFound(frame, cm, compressions, exts);
    pos := cm + 1 + frame[cm] + 2;
    ListAt(frame, payload, cs, cm, pos - 2, |exts|);
  }

  /** The walk reaches the extension list of a well-formed hello wherever it lies in the frame. */
  lemma ListFound(frame: Frame, payload: nat, h: Hello) returns (pos: nat)
    requires WellFormed(h) && At(frame, payload, EncodeHello(h))
    ensures var exts := EncodeExtensions(h.extensions);
            ExtensionList(frame, payload) == Some((pos, pos + |exts|)) && At(frame, pos, exts)
    ensures pos == payload + ListOffset(h)
  {
    pos := PartsFound(frame, payload, h.head, h.sessionId, h.ciphers, h.compressions, EncodeExtensions(h.extensions));
  }

  /** One extension, read off the frame. */
  lemma FirstExtension(frame: Frame, pos: nat, xs: seq<Extension>)
    requires xs != [] && WellFormedExtensions(xs) && At(frame, pos, EncodeExtensions(xs))
    ensures |EncodeExtensions(xs)| == 4 + |xs[0].data| + |EncodeExtensions(xs[1..])|
    ensures pos + 4 + |xs[0].data| <= |frame|
    ensures Num16(frame, pos) == xs[0].typ && Num16(frame, pos + 2) == |xs[0].data|
    ensures At(frame, pos + 4, xs[0].data)
    ensures At(frame, pos + 4 + |xs[0].data|, EncodeExtensions(xs[1..]))
  {
    ExtensionParts(frame, pos, xs[0], EncodeExtensions(xs[1..]));
  }

  lemma ExtensionParts(frame: Frame, pos: nat, x: Extension, rest: seq<byte>)
    requires |x.data| < U16 && At(frame, pos, ToBe16(x.typ) + With16(x.data, rest))
    ensures |ToBe16(x.typ) + With16(x.data, rest)| == 4 + |x.data| + |rest|
    ensures pos + 4 + |x.data| <= |frame|
    ensures Num16(frame, pos) == x.typ && Num16(frame, pos + 2) == |x.data|
    ensures At(frame, pos + 4, x.data) && At(frame, pos + 4 + |x.data|, rest)
  {
    AtSplit(frame, pos, ToBe16(x.typ), With16(x.data, rest));
    Num16At(frame, pos, x.typ);
    Field16(frame, pos + 2, x.data, rest);
  }

  lemma HostFound(frame: Frame, pos: nat, end: nat, name: seq<byte>)
    requires 0 < |name| && |name| + 5 < U16 && end <= |frame|
    requires At(frame, pos, ServerName(name).data) && pos + |ServerName(name).data| <= end
    ensures HostBytes(frame, pos, end) == Some(name[..Min(|name|, SNI_COPY)])
  {
    AtSplit(frame, pos, ToBe16(|name| + 3), [0] + (ToBe16(|name|) + name));
    AtSplit(frame, pos + 2, [0], ToBe16(|name|) + name);
    AtSplit(frame, pos + 3, ToBe16(|name|), name);
    Num16At(frame, pos + 3, |name|);
    AtPrefix(frame, pos + 5, name, Min(|name|, SNI_COPY));
  }

  /** The extensions xs lie at `pos` and end at `end`. */
  ghost predicate ListLies(frame: Frame, pos: nat, end: nat, xs: seq<Extension>) {
    && WellFormedExtensions(xs) && At(frame, pos, EncodeExtensions(xs))
    && end == pos + |EncodeExtensions(xs)| <= |frame|
  }

  lemma StopsAtType0(frame: Frame, pos: nat, end: nat, n: nat)
    requires n > 0 && pos + 4 <= end <= |frame| && Num16(frame, pos) == 0
    ensures WalkExtensions(frame, pos, end, n) == HostBytes(frame, pos + 4, end)
  {
  }

  lemma FirstFits(frame: Frame, pos: nat, end: nat, xs: seq<Extension>)
    requires ListLies(frame, pos, end, xs) && xs != []
    ensures pos + 4 + |xs[0].data| <= end && Num16(frame, pos) == xs[0].typ && At(frame, pos + 4, xs[0].data)
  {
    FirstExtension(frame, pos, xs);
  }

  /** The walk stops at a server_name extension. */
  lemma WalkHits(frame: Frame, pos: nat, end: nat, n: nat, xs: seq<Extension>, name: seq<byte>)
    requires ListLies(frame, pos, end, xs) && xs != [] && n > 0
    requires 0 < |name| && |name| + 5 < U16 && xs[0] == ServerName(name)
    ensures WalkExtensions(frame, pos, end, n) == Some(name[..Min(|name|, SNI_COPY)])
  {
    FirstFits(frame, pos, end, xs);
    StopsAtType0(frame, pos, end, n);
    HostFound(frame, pos + 4, end, name);
  }

  /** The walk steps over an extension of another type. */
  lemma WalkSteps(frame: Frame, pos: nat, end: nat, n: nat, xs: seq<Extension>) returns (next: nat)
    requires ListLies(frame, pos, end, xs) && xs != [] && n > 0 && xs[0].typ != 0
    ensures next > pos && ListLies(frame, next, end, xs[1..])
    ensures WalkExtensions(frame, pos, end, n) == WalkExtensions(frame, next, end, n - 1)
  {
    FirstExtension(frame, pos, xs);
    next := pos + 4 + Num16(frame, pos + 2);
  }

  /** Walking over extensions of other types first. */
  lemma {:induction false} WalkFinds(frame: Frame, pos: nat, end: nat, n: nat, xs: seq<Extension>, k: nat, name: seq<byte>)
    requires ListLies(frame, pos, end, xs)
    requires k < |xs| && k < n && forall i :: 0 <= i < k ==> xs[i].typ != 0
    requires 0 < |name| && |name| + 5 < U16 && xs[k] == ServerName(name)
    ensures WalkExtensions(frame, pos, end, n) == Some(name[..Min(|name|, SNI_COPY)])
    decreases n
  {
    if k == 0 {
      WalkHits(frame, pos, end, n, xs, name);
    } else {
      var next := WalkSteps(frame, pos, end, n, xs);
      WalkFinds(frame, next, end, n - 1, xs[1..], k - 1, name);
    }
  }

  /** The parser inverts the encoding: for every well-formed hello anywhere in the frame, with any session id,
      cipher list, compression list and preceding extensions, whose server_name is among the first 16
      extensions, the bytes copied are the host name's first 16. */
  lemma SniInvertsEncoding(frame: Frame, payload: nat, h: Hello, k: nat, name: seq<byte>)
    requires WellFormed(h) && At(frame, payload, EncodeHello(h))
    requires k < |h.extensions| && k < MAX_EXTENSIONS && forall i :: 0 <= i < k ==> h.extensions[i].typ != 0
    requires 0 < |name| && |name| + 5 < U16 && h.extensions[k] == ServerName(name)
    ensures Sni(frame, payload) == Some(name[..Min(|name|, SNI_COPY)])
  {
    var pos := ListFound(frame, payload, h);
    var end := pos + |EncodeExtensions(h.extensions)|;
    WalkFinds(frame, pos, end, MAX_EXTENSIONS, h.extensions, k, name);
  }

  /** In the buffer, that is the first min(n, 15) bytes of the name, and a NUL at byte 15. */
  lemma SniShown(buf: seq<byte>, name: seq<byte>)
    requires |buf| == MAX_TLS_SNI && 0 < |name|
    ensures var m := Min(|name|, SNI_COPY - 1);
            var out := Overlaid(buf, name[..Min(|name|, SNI_COPY)]);
            && |out| == |buf|
            && out[..m] == name[..m]
            && out[SNI_COPY - 1] == 0
            && (forall i :: m <= i < |buf| && i != SNI_COPY - 1 ==> out[i] == buf[i])
  {
  }

  lemma {:induction false} WalkFindsNothing(frame: Frame, pos: nat, end: nat, n: nat, xs: seq<Extension>)
    requires ListLies(frame, pos, end, xs)
    requires forall i :: 0 <= i < |xs| && i < n ==> xs[i].typ != 0
    ensures WalkExtensions(frame, pos, end, n) == None
    decreases n
  {
    if n > 0 && xs != [] {
      var next := WalkSteps(frame, pos, end, n, xs);
      WalkFindsNothing(frame, next, end, n - 1, xs[1..]);
    }
  }

  /** Without a server_name among the first 16 extensions nothing is copied. */
  lemma SniAbsent(frame: Frame, payload: nat, h: Hello)
    requires WellFormed(h) && At(frame, payload, EncodeHello(h))
    requires forall i :: 0 <= i < |h.extensions| && i < MAX_EXTENSIONS ==> h.extensions[i].typ != 0
    ensures Sni(frame, payload) == None
  {
    var pos := ListFound(frame, payload, h);
    var end := pos + |EncodeExtensions(h.extensions)|;
    WalkFindsNothing(frame, pos, end, MAX_EXTENSIONS, h.extensions);
  }

  /** The length in front of the name alone decides, up to the end of the list; the extension's own length, the list
      length and the name type are not looked at. */
  lemma HostBytesExactly(frame: Frame, pos: nat, end: nat)
    requires pos + 5 <= end <= |frame|
    ensures var len := frame[pos + 3] as int * 256 + frame[pos + 4] as int;
            HostBytes(frame, pos, end) ==
            if len > 0 && pos + 5 + Min(len, 63) <= end then Some(frame[pos + 5..pos + 5 + Min(len, 16)]) else None
  {
  }

  // ---- hellos that the frame cuts off ----

  /** `frame` is the front of `whole`. */
  ghost predicate FrontOf(frame: Frame, whole: Frame) {
    |frame| <= |whole| && forall i :: 0 <= i < |frame| ==> frame[i] == whole[i]
  }

  /** The walk over the fixed fields, in a frame that is cut off: it gets to the list exactly when the frame does, and the
      list is clamped to the frame. */
  lemma ListOfFront(frame: Frame, whole: Frame, payload: nat, pos: nat, end: nat)
    requires FrontOf(frame, whole) && ExtensionList(whole, payload) == Some((pos, end))
    ensures ExtensionList(frame, payload) == if pos <= |frame| then Some((pos, Min(end, |frame|))) else None
  {
    var sid := payload + HELLO_HEAD;
    if sid < |frame| {
      var cs := sid + 1 + whole[sid];
      if cs + 2 <= |frame| {
        var cm := cs + 2 + Num16(whole, cs);
        assert Num16(frame, cs) == Num16(whole, cs);
        if cm < |frame| {
          var ext := cm + 1 + whole[cm];
          assert pos == ext + 2;
          if ext + 2 <= |frame| { assert Num16(frame, ext) == Num16(whole, ext); }
        }
      }
    }
  }

  /** The first name of a server_name extension, in a frame that is cut off. */
  lemma HostOfFront(frame: Frame, whole: Frame, pos: nat, end: nat, front: seq<byte>, name: seq<byte>, more: seq<byte>)
    requires FrontOf(frame, whole) && |front| == 3 && |name| < U16 && end <= |whole|
    requires At(whole, pos, front + (ToBe16(|name|) + (name + more))) && pos + 5 + |name| + |more| <= end
    ensures HostBytes(frame, pos, Min(end, |frame|)) ==
            if |name| > 0 && pos + 5 + Min(|name|, 63) <= |frame| then Some(name[..Min(|name|, 16)]) else None
  {
    AtSplit(whole, pos, front, ToBe16(|name|) + (name + more));
    AtSplit(whole, pos + 3, ToBe16(|name|), name + more);
    AtSplit(whole, pos + 5, name, more);
    Num16At(whole, pos + 3, |name|);
    if pos + 5 <= |frame| {
      assert Num16(frame, pos + 3) == |name|;
      if pos + 5 + Min(|name|, 63) <= |frame| {
        AtPrefix(whole, pos + 5, name, Min(|name|, 16));
        assert frame[pos + 5..pos + 5 + Min(|name|, 16)] == whole[pos + 5..pos + 5 + Min(|name|, 16)];
      }
    }
  }

  /** One step of the walk in a frame that is cut off. */
  lemma StepOfFront(frame: Frame, whole: Frame, pos: nat, end: nat, n: nat, xs: seq<Extension>) returns (next: nat)
    requires FrontOf(frame, whole) && ListLies(whole, pos, end, xs) && xs != [] && n > 0 && xs[0].typ != 0
    ensures next == pos + 4 + |xs[0].data| && ListLies(whole, next, end, xs[1..])
    ensures WalkExtensions(frame, pos, Min(end, |frame|), n) ==
            if pos + 4 <= |frame| then WalkExtensions(frame, next, Min(end, |frame|), n - 1) else None
  {
    FirstExtension(whole, pos, xs);
    next := pos + 4 + |xs[0].data|;
    FirstFits(whole, pos, end, xs);
    FrontStep(frame, whole, pos, end, n, next);
  }

  lemma FrontStep(frame: Frame, whole: Frame, pos: nat, end: nat, n: nat, next: nat)
    requires FrontOf(frame, whole) && pos + 4 <= end <= |whole| && n > 0
    requires Num16(whole, pos) != 0 && next == pos + 4 + Num16(whole, pos + 2)
    ensures WalkExtensions(frame, pos, Min(end, |frame|), n) ==
            if pos + 4 <= |frame| then WalkExtensions(frame, next, Min(end, |frame|), n - 1) else None
  {
    if pos + 4 <= |frame| {
      assert Num16(frame, pos) == Num16(whole, pos) && Num16(frame, pos + 2) == Num16(whole, pos + 2);
    }
  }

  lemma FrontHit(frame: Frame, whole: Frame, pos: nat, end: nat, n: nat)
    requires FrontOf(frame, whole) && pos + 4 <= end <= |whole| && n > 0 && Num16(whole, pos) == 0
    ensures WalkExtensions(frame, pos, Min(end, |frame|), n) ==
            if pos + 4 <= |frame| then HostBytes(frame, pos + 4, Min(end, |frame|)) else None
  {
    if pos + 4 <= |frame| {
      assert Num16(frame, pos) == Num16(whole, pos);
      StopsAtType0(frame, pos, Min(end, |frame|), n);
    }
  }

  /** What is copied of a name that starts at `at` in a frame that may end before it does. */
  ghost function CutName(frame: Frame, at: nat, name: seq<byte>): Option<seq<byte>> {
    if |name| > 0 && at + Min(|name|, 63) <= |frame| then Some(name[..Min(|name|, 16)]) else None
  }

  lemma HitOfFront(frame: Frame, whole: Frame, pos: nat, end: nat, n: nat, xs: seq<Extension>,
                   front: seq<byte>, name: seq<byte>, more: seq<byte>)
    requires FrontOf(frame, whole) && ListLies(whole, pos, end, xs) && n > 0 && xs != []
    requires |front| == 3 && |name| < U16 && xs[0] == HostExtension(front, name, more)
    ensures WalkExtensions(frame, pos, Min(end, |frame|), n) == CutName(frame, pos + 9, name)
  {
    hide WalkExtensions, HostBytes, FrontOf, At, EncodeExtensions, WellFormedExtensions;
    FirstFits(whole, pos, end, xs);
    assert pos + 4 + (5 + |name| + |more|) <= end <= |whole|;
    FrontHit(frame, whole, pos, end, n);
    HostOfFront(frame, whole, pos + 4, end, front, name, more);
  }

  lemma {:induction false} WalkOfFront(frame: Frame, whole: Frame, pos: nat, end: nat, n: nat, xs: seq<Extension>, k: nat,
                                       front: seq<byte>, name: seq<byte>, more: seq<byte>)
    requires FrontOf(frame, whole) && ListLies(whole, pos, end, xs)
    requires k < |xs| && k < n && forall i :: 0 <= i < k ==> xs[i].typ != 0
    requires |front| == 3 && |name| < U16 && xs[k] == HostExtension(front, name, more)
    ensures WalkExtensions(frame, pos, Min(end, |frame|), n) == CutName(frame, pos + ExtensionOffset(xs, k) + 9, name)
    decreases n
  {
    hide WalkExtensions, ListLies, HostExtension, FrontOf;
    if k == 0 {
      HitOfFront(frame, whole, pos, end, n, xs, front, name, more);
    } else {
      var next := StepOfFront(frame, whole, pos, end, n, xs);
      WalkOfFront(frame, whole, next, end, n - 1, xs[1..], k - 1, front, name, more);
    }
  }

  /** A well-formed hello in a frame that may end anywhere, even in its first bytes: if a server_name extension is
      among the first 16, its first name is copied exactly when the frame still holds the first min(n, 63) bytes of
      it, and nothing is copied otherwise. */
  lemma CutHelloExactly(frame: Frame, whole: Frame, payload: nat, h: Hello, k: nat,
                        front: seq<byte>, name: seq<byte>, more: seq<byte>)
    requires FrontOf(frame, whole) && WellFormed(h) && At(whole, payload, EncodeHello(h))
    requires k < |h.extensions| && k < 16 && forall i :: 0 <= i < k ==> h.extensions[i].typ != 0
    requires |front| == 3 && |name| < U16 && h.extensions[k] == HostExtension(front, name, more)
    ensures Sni(frame, payload) ==
            if |name| > 0 && payload + ListOffset(h) + ExtensionOffset(h.extensions, k) + 9 + Min(|name|, 63) <= |frame|
            then Some(name[..Min(|name|, 16)]) else None
  {
    var pos := ListFound(whole, payload, h);
    var end := pos + |EncodeExtensions(h.extensions)|;
    ListOfFront(frame, whole, payload, pos, end);
    if pos <= |frame| { WalkOfFront(frame, whole, pos, end, MAX_EXTENSIONS, h.extensions, k, front, name, more); }
  }

  lemma {:induction false} NothingInFront(frame: Frame, whole: Frame, pos: nat, end: nat, n: nat, xs: seq<Extension>)
    requires FrontOf(frame, whole) && ListLies(whole, pos, end, xs)
    requires forall i :: 0 <= i < |xs| && i < n ==> xs[i].typ != 0
    ensures WalkExtensions(frame, pos, Min(end, |frame|), n) == None
    decreases n
  {
    if n > 0 && xs != [] {
      var next := StepOfFront(frame, whole, pos, end, n, xs);
      NothingInFront(frame, whole, next, end, n - 1, xs[1..]);
    }
  }

  /** Without a server_name among the first 16 nothing is copied, wherever the frame ends. */
  lemma CutHelloWithout(frame: Frame, whole: Frame, payload: nat, h: Hello)
    requires FrontOf(frame, whole) && WellFormed(h) && At(whole, payload, EncodeHello(h))
    requires forall i :: 0 <= i < |h.extensions| && i < 16 ==> h.extensions[i].typ != 0
    ensures Sni(frame, payload) == None
  {
    var pos := ListFound(whole, payload, h);
    var end := pos + |EncodeExtensions(h.extensions)|;
    ListOfFront(frame, whole, payload, pos, end);
    if pos <= |frame| { NothingInFront(frame, whole, pos, end, MAX_EXTENSIONS, h.extensions); }
  }

  /** Only a handshake record (22) that starts with a ClientHello (1) and reaches the session id is looked at. */
  lemma NotAHello(frame: Frame, payload: nat)
    requires payload + 43 >= |frame| || frame[payload] != 22 || frame[payload + 5] != 1
    ensures Sni(frame, payload) == None
  {
  }
}
