/** pksniff, kernel side: the HTTP/1.x heuristic and the request-line snippet. */
module HttpHint {
  import opened Prelude

  const MAX_HTTP_INFO: nat := 48

  /** "GET ", "POST", "HEAD", "PUT ", "DEL" and "HTTP". */
  const VERBS: seq<seq<byte>> :=
    [[71, 69, 84, 32], [80, 79, 83, 84], [72, 69, 65, 68], [80, 85, 84, 32], [68, 69, 76], [72, 84, 84, 80]]

  /** Eight payload bytes are there and start with one of the verbs. */
  ghost predicate LooksLikeHttp(frame: Frame, payload: nat) {
    payload + 8 <= |frame| && exists i :: 0 <= i < |VERBS| && VERBS[i] <= frame[payload..payload + 8]
  }

  lemma PrefixBytes(v: seq<byte>, b: seq<byte>)
    requires |v| <= |b|
    ensures v <= b <==> forall i :: 0 <= i < |v| ==> b[i] == v[i]
  {
  }

  method IsHttp(frame: Frame, payload: u16) returns (http: bool)
    ensures http <==> LooksLikeHttp(frame, payload)
  {
    if payload + 8 > |frame| {
      return false;
    }
    var loaded := Load(frame, payload, 8);
    if loaded.None? {
      return false;
    }
    var h := loaded.value;
    http := || (h[0] == 71 && h[1] == 69 && h[2] == 84 && h[3] == 32)
            || (h[0] == 80 && h[1] == 79 && h[2] == 83 && h[3] == 84)
            || (h[0] == 72 && h[1] == 69 && h[2] == 65 && h[3] == 68)
            || (h[0] == 80 && h[1] == 85 && h[2] == 84 && h[3] == 32)
            || (h[0] == 68 && h[1] == 69 && h[2] == 76)
            || (h[0] == 72 && h[1] == 84 && h[2] == 84 && h[3] == 80);
    forall i | 0 <= i < |VERBS|
      ensures VERBS[i] <= h <==> forall j :: 0 <= j < |VERBS[i]| ==> h[j] == VERBS[i][j]
    {
      PrefixBytes(VERBS[i], h);
    }
    assert VERBS[0] <= h || VERBS[1] <= h || VERBS[2] <= h || VERBS[3] <= h || VERBS[4] <= h || VERBS[5] <= h <==> http;
  }

  function OneLine(c: byte): byte { if c == 13 || c == 10 then 32 else c }

  /** The first 47 payload bytes, line breaks blanked. */
  function Snippet(frame: Frame, payload: nat): (line: seq<byte>)
    requires payload + MAX_HTTP_INFO - 1 <= |frame|
    ensures |line| == MAX_HTTP_INFO - 1
    ensures forall i :: 0 <= i < |line| ==> line[i] == OneLine(frame[payload + i])
  {
    var body := frame[payload..payload + MAX_HTTP_INFO - 1];
    seq(|body|, i requires 0 <= i < |body| => OneLine(body[i]))
  }

  /** The snippet exists exactly when 47 payload bytes are in the frame. */
  function Info(frame: Frame, payload: nat): Option<seq<byte>> {
    if payload + MAX_HTTP_INFO - 1 <= |frame| then Some(Snippet(frame, payload)) else None
  }

  /** `copy` only decides whether to go on; the load asks for all 47 bytes whatever it says. */
  method ParseHttpInfo(frame: Frame, payload: u16, out: array<byte>)
    requires out.Length == MAX_HTTP_INFO
    modifies out
    ensures match Info(frame, payload)
            case None => out[..] == old(out[..])
            case Some(line) => out[..] == line + [0]
  {
    var copy := out.Length - 1;
    if payload + copy > |frame| {
      copy := (|frame| - payload) % U32;
    }
    if copy == 0 || copy > out.Length - 1 {
      return;
    }
    var tmp := Load(frame, payload, MAX_HTTP_INFO - 1);
    if tmp.None? {
      return;
    }
    for i := 0 to MAX_HTTP_INFO - 1
      invariant forall k :: 0 <= k < i ==> out[k] == OneLine(frame[payload + k])
    {
      var c := tmp.value[i];
      if c == 13 || c == 10 {
        c := 32;
      }
      out[i] := c;
    }
    out[MAX_HTTP_INFO - 1] := 0;
    assert out[..] == Info(frame, payload).value + [0];
  }
}
