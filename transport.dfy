/**
 * How image bytes travel from the background page to the output page: the background page
 * fetches the URL, turns the bytes into a binary string chunk by chunk and sends it base64
 * encoded; the output page decodes the base64 and keeps the low byte of each character.
 * `btoa`, `atob` and `fetch` are parameters.
 */
module Transport {
  import opened Wrappers
  import opened Bytes

  /** The binary string of some bytes: one character per byte, with that code. */
  function Latin1(b: seq<Byte>): (s: string)
    ensures |s| == |b| && forall i :: 0 <= i < |b| ==> s[i] as int == b[i]
  {
    seq(|b|, i requires 0 <= i < |b| => b[i] as char)
  }

  /** `bytes[i] = binary.charCodeAt(i)` into a `Uint8Array`, which keeps the code modulo 256. */
  function Codes(s: string): (b: seq<Byte>)
    ensures |b| == |s| && forall i :: 0 <= i < |s| ==> b[i] == (s[i] as int) % 256
  {
    seq(|s|, i requires 0 <= i < |s| => (s[i] as int) % 256)
  }

  /** Reading the codes of a binary string gives back its bytes. */
  lemma CodesOfLatin1(b: seq<Byte>)
    ensures Codes(Latin1(b)) == b
  {
  }

  lemma Latin1Append(a: seq<Byte>, b: seq<Byte>)
    ensures Latin1(a + b) == Latin1(a) + Latin1(b)
  {
  }

  /** The number of bytes each `String.fromCharCode.apply` call takes. */
  const Chunk: nat := 0x8000

  /**
   * The background page's loop: `binary += String.fromCharCode.apply(null, u8.subarray(i, i + chunk))`
   * for `i` stepping by `0x8000`; the last `subarray` stops at the end.
   */
  method BinaryString(u8: seq<Byte>) returns (binary: string)
    ensures binary == Latin1(u8)
  {
    binary := "";
    var i := 0;
    while i < |u8|
      invariant 0 <= i
      invariant i < |u8| ==> binary == Latin1(u8[..i])
      invariant i >= |u8| ==> binary == Latin1(u8)
      decreases |u8| - i
    {
      var end := if i + Chunk < |u8| then i + Chunk else |u8|;
      Latin1Append(u8[..i], u8[i..end]);
      assert u8[..i] + u8[i..end] == u8[..end];
      binary := binary + Latin1(u8[i..end]);
      i := i + Chunk;
      if i >= |u8| {
        assert u8[..end] == u8;
      }
    }
    if |u8| == 0 {
      assert u8 == [];
    }
  }

  /** The message the output page sends: `{ type, url }`. */
  datatype Message = Message(kind: string, url: string)

  /** `{ ok: true, b64, ... }` or `{ ok: false, error }`. */
  datatype Response = Ok(b64: string) | Failed

  const FetchKind: string := "FETCH_ARRAY_BUFFER"

  /**
   * What the background proxy answers: nothing unless the message asks to fetch a non-empty URL;
   * `Failed` when the fetch throws; the base64 of the bytes otherwise.
   */
  function ProxyResponse(msg: Option<Message>, fetch: string -> Option<seq<Byte>>, btoa: string -> string)
    : (r: Option<Response>)
    ensures r.Some? <==> msg.Some? && msg.value.kind == FetchKind && msg.value.url != ""
    ensures r.Some? ==> (r.value == Failed <==> fetch(msg.value.url).None?)
    ensures r.Some? && r.value.Ok? ==> r.value.b64 == btoa(Latin1(fetch(msg.value.url).value))
  {
    if msg.Some? && msg.value.kind == FetchKind && msg.value.url != "" then
      match fetch(msg.value.url)
      case None => Some(Failed)
      case Some(bytes) => Some(Ok(btoa(Latin1(bytes))))
    else None
  }

  /** The `onMessage` listener for `FETCH_ARRAY_BUFFER`. */
  method HandleFetch(msg: Option<Message>, fetch: string -> Option<seq<Byte>>, btoa: string -> string)
    returns (response: Option<Response>)
    ensures response == ProxyResponse(msg, fetch, btoa)
  {
    if msg.Some? && msg.value.kind == FetchKind && msg.value.url != "" {
      var res := fetch(msg.value.url);
      if res.None? {
        response := Some(Failed);
      } else {
        var binary := BinaryString(res.value);
        response := Some(Ok(btoa(binary)));
      }
    } else {
      response := None;
    }
  }

  /** `b64ToUint8(b64)`; `None` when `atob` throws on a malformed string. */
  method B64ToUint8(b64: string, atob: string -> Option<string>) returns (bytes: Option<array<Byte>>)
    ensures bytes.None? <==> atob(b64).None?
    ensures bytes.Some? ==> fresh(bytes.value) && bytes.value[..] == Codes(atob(b64).value)
  {
    var decoded := atob(b64);
    if decoded.None? {
      return None;
    }
    var binary := decoded.value;
    var len := |binary|;
    var a := new Byte[len];
    for i := 0 to len
      invariant forall j :: 0 <= j < i ==> a[j] == (binary[j] as int) % 256
    {
      a[i] := (binary[i] as int) % 256;
    }
    return Some(a);
  }

  /** What `fetchArrayBuffer` resolves to for the response the proxy gave: the bytes, or `null`. */
  function Received(response: Option<Response>, atob: string -> Option<string>): Option<seq<Byte>>
  {
    match response
    case Some(Ok(b64)) =>
      (match atob(b64)
       case None => None
       case Some(binary) => Some(Codes(binary)))
    case _ => None
  }

  /** `fetchArrayBuffer(url)` once the proxy's response (`None` for none) is in. */
  method FetchArrayBuffer(response: Option<Response>, atob: string -> Option<string>) returns (buffer: Option<seq<Byte>>)
    ensures buffer == Received(response, atob)
  {
    if response.None? || response.value.Failed? {
      return None;
    }
    var bytes := B64ToUint8(response.value.b64, atob);
    if bytes.None? {
      return None;
    }
    return Some(bytes.value[..]);
  }

  /** The fetcher the output page sees: its request, the proxy's answer, and the decoding. */
  function Fetcher(fetch: string -> Option<seq<Byte>>, btoa: string -> string, atob: string -> Option<string>): string -> Option<seq<Byte>>
  {
    (url: string) => Received(ProxyResponse(Some(Message(FetchKind, url)), fetch, btoa), atob)
  }

  /**
   * When `atob` undoes `btoa` on the binary string of the fetched bytes, the output page receives
   * exactly the bytes the background page fetched, and `null` when the fetch threw.
   */
  lemma Transported(fetch: string -> Option<seq<Byte>>, btoa: string -> string, atob: string -> Option<string>, url: string)
    requires url != ""
    requires fetch(url).Some? ==> atob(btoa(Latin1(fetch(url).value))) == Some(Latin1(fetch(url).value))
    ensures Fetcher(fetch, btoa, atob)(url) == fetch(url)
  {
    if fetch(url).Some? {
      CodesOfLatin1(fetch(url).value);
    }
  }

  /** An empty URL gets no answer, so `fetchArrayBuffer` gives `null`. */
  lemma EmptyUrlNotFetched(fetch: string -> Option<seq<Byte>>, btoa: string -> string, atob: string -> Option<string>)
    ensures Fetcher(fetch, btoa, atob)("") == None
  {
  }
}
