/**
  Opaque cursors. A cursor is a JSON body with an integrity digest, in unpadded base64url. SHA-256
  and the JSON writer and reader are parameters; the model asks of them only what a result needs.
*/
module Cursor {
  import opened Wrappers
  import opened Bytes
  import opened OffsetScan
  import Base64

  const MAX_CURSOR_LENGTH: nat := 4096

  datatype Body = Body(
    version: int,
    namespace: string,
    offset: int,
    binding: string,
    sourceGeneration: string,
    upperBound: Option<int>)

  datatype Codec = Codec(
    digestRequest: (string, map<string, string>) -> string,
    digestBody: Body -> string,
    write: (Body, string) -> seq<Byte>,
    read: seq<Byte> -> Option<(Body, string)>)

  /** The writer writes something, and the reader understands it. */
  ghost predicate Faithful(codec: Codec) {
    forall body, integrity ::
      codec.write(body, integrity) != [] && codec.read(codec.write(body, integrity)) == Some((body, integrity))
  }

  /** Different requests have different digests. */
  ghost predicate CollisionFree(codec: Codec) {
    forall e, e', p, p' :: codec.digestRequest(e, p) == codec.digestRequest(e', p') ==> e == e' && p == p'
  }

  /** The request without its cursor. */
  function Bound(params: map<string, string>): map<string, string> {
    params - {"cursor"}
  }

  function Binding(codec: Codec, params: map<string, string>, epoch: string): string {
    codec.digestRequest(epoch, Bound(params))
  }

  function EncodeCursor(codec: Codec, namespace: string, offset: int, binding: string, generation: string,
                        upperBound: Option<int>): string {
    var body := Body(1, namespace, offset, binding, generation, upperBound);
    Base64.StripPadding(Base64.Encode(codec.write(body, codec.digestBody(body))))
  }

  datatype Start = Start(offset: nat, sourceChanged: bool, upperBound: Option<int>)

  datatype CursorError = InvalidArgument | SourceHasChanged

  function TokenOf(params: map<string, string>): Option<string> {
    if "cursor" in params then Some(params["cursor"]) else None
  }

  /** Where a request starts: at the beginning, or where its cursor says if the cursor belongs to it. */
  function CursorStart(codec: Codec, namespace: string, params: map<string, string>, epoch: string, generation: string,
                       tolerateChange: bool)
    : Result<Start, CursorError>
  {
    match TokenOf(params)
    case None => Ok(Start(0, false, None))
    case Some(token) =>
      if !(1 <= |token| <= MAX_CURSOR_LENGTH) then Err(InvalidArgument)
      else
        var bytes := Base64.Decode(Base64.RestorePadding(token));
        if bytes.None? then Err(InvalidArgument)
        else
          var payload := codec.read(bytes.value);
          if payload.None? then Err(InvalidArgument)
          else
            var (body, integrity) := payload.value;
            if integrity != codec.digestBody(body) || body.version != 1 || body.namespace != namespace then
               Err(InvalidArgument)
            else if body.binding != Binding(codec, params, epoch) then Err(InvalidArgument)
            else if body.sourceGeneration != generation && !tolerateChange then Err(SourceHasChanged)
            else if !(0 <= body.offset <= MAX_CURSOR_OFFSET) then Err(InvalidArgument)
            else Ok(Start(body.offset, body.sourceGeneration != generation, body.upperBound))
  }

  lemma IssuedTokenDecodes(codec: Codec, namespace: string, offset: int, binding: string, generation: string,
                           upperBound: Option<int>)
    requires Faithful(codec)
    ensures var body := Body(1, namespace, offset, binding, generation, upperBound);
      var token := EncodeCursor(codec, namespace, offset, binding, generation, upperBound);
      var bytes := Base64.Decode(Base64.RestorePadding(token));
      bytes.Some? && codec.read(bytes.value) == Some((body, codec.digestBody(body)))
  {
    var body := Body(1, namespace, offset, binding, generation, upperBound);
    Base64.TokenRoundTrip(codec.write(body, codec.digestBody(body)));
  }

  lemma IssuedTokenIsNotEmpty(codec: Codec, namespace: string, offset: int, binding: string, generation: string,
                              upperBound: Option<int>)
    requires Faithful(codec)
    ensures EncodeCursor(codec, namespace, offset, binding, generation, upperBound) != ""
  {
    hide Base64.StripPadding, Base64.Encode;
    var body := Body(1, namespace, offset, binding, generation, upperBound);
    Base64.TokenIsNotEmpty(codec.write(body, codec.digestBody(body)));
  }

  /** The two requests have the same parameters with the same values, except perhaps for their cursors. */
  ghost predicate SameButForCursor(some: map<string, string>, other: map<string, string>) {
    forall name :: name != "cursor" ==>
      (name in some <==> name in other) && (name in some ==> some[name] == other[name])
  }

  lemma BoundMeans(some: map<string, string>, other: map<string, string>)
    ensures Bound(some) == Bound(other) <==> SameButForCursor(some, other)
  {
    var a, b := Bound(some), Bound(other);
    if SameButForCursor(some, other) {
      assert a.Keys == b.Keys by {
        forall name ensures name in a <==> name in b {}
      }
    } else {
      var name :| name != "cursor"
        && !((name in some <==> name in other) && (name in some ==> some[name] == other[name]));
      assert name in a <==> name in some;
      assert name in b <==> name in other;
    }
  }

  /**
    An issued cursor is accepted exactly by the request and epoch it was issued for, in the same
    namespace, up to the longest text and the largest offset a cursor may have, and, where drift is not tolerated, on an
    unchanged source; and then it restores where the page had stopped.
  */
  lemma IssuedCursorAcceptedIff(codec: Codec, namespace: string, offset: nat, params: map<string, string>,
                                epoch: string, generation: string, upperBound: Option<int>, namespace': string,
                                params': map<string, string>, epoch': string, generation': string, tolerateChange: bool)
    requires Faithful(codec) && CollisionFree(codec)
    requires TokenOf(params')
      == Some(EncodeCursor(codec, namespace, offset, Binding(codec, params, epoch), generation, upperBound))
    ensures CursorStart(codec, namespace', params', epoch', generation', tolerateChange).Ok?
       <==> && namespace == namespace' && epoch == epoch' && SameButForCursor(params, params')
            && |params'["cursor"]| <= 4096 && offset <= 10_000_000
               && (generation == generation' || tolerateChange)
    ensures CursorStart(codec, namespace', params', epoch', generation', tolerateChange) == Err(SourceHasChanged)
       <==> && namespace == namespace' && epoch == epoch' && SameButForCursor(params, params')
            && |params'["cursor"]| <= 4096 && generation != generation' && !tolerateChange
    ensures CursorStart(codec, namespace', params', epoch', generation', tolerateChange).Ok? ==>
      CursorStart(codec, namespace', params', epoch', generation', tolerateChange).value
        == Start(offset, generation != generation', upperBound)
  {
    hide Base64.Decode, Base64.RestorePadding, EncodeCursor, Bound, SameButForCursor;
    BoundMeans(params, params');
    IssuedTokenDecodes(codec, namespace, offset, Binding(codec, params, epoch), generation, upperBound);
    IssuedTokenIsNotEmpty(codec, namespace, offset, Binding(codec, params, epoch), generation, upperBound);
  }

  /** What is accepted was sealed for this very request: digest, binding, namespace and offset all agree. */
  lemma AcceptedCursorWasSealed(codec: Codec, namespace: string, params: map<string, string>, epoch: string,
                                generation: string, tolerateChange: bool)
    returns (body: Body)
    requires TokenOf(params).Some?
    requires CursorStart(codec, namespace, params, epoch, generation, tolerateChange).Ok?
    ensures Base64.Decode(Base64.RestorePadding(params["cursor"])).Some?
    ensures codec.read(Base64.Decode(Base64.RestorePadding(params["cursor"])).value)
      == Some((body, codec.digestBody(body)))
    ensures body.version == 1 && body.namespace == namespace && body.binding == Binding(codec, params, epoch)
    ensures body.sourceGeneration == generation || tolerateChange
    ensures 0 <= body.offset <= 10_000_000
    ensures CursorStart(codec, namespace, params, epoch, generation, tolerateChange).value
         == Start(body.offset, body.sourceGeneration != generation, body.upperBound)
  {
    var bytes := Base64.Decode(Base64.RestorePadding(params["cursor"])).value;
    body := codec.read(bytes).value.0;
  }
}
