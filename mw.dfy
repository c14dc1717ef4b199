/**
 * The gRPC client interceptor of package mw: it copies the caller's context values into
 * the outgoing metadata (`getRpcContext`), runs the call, and turns the error the call
 * returns into a coded error of package errs. The context is a map from key to value,
 * the metadata a map from lower-cased key to values, and the call an oracle that is
 * given the outgoing metadata.
 */
module Mw {
  import opened Wrappers
  import Strs
  import Errs

  // Context keys of the protocol constant package.
  const RpcCustomHeader: string := "customHeader"
  const OperationID: string := "operationID"
  const OpUserID: string := "opUserID"
  const OpUserPlatform: string := "platform"
  const ConnID: string := "connID"

  // The same keys as `md.Set` stores them, lower-cased.
  const MdCustomHeader: string := "customheader"
  const MdOperationID: string := "operationid"
  const MdOpUserID: string := "opuserid"
  const MdOpUserPlatform: string := "platform"
  const MdConnID: string := "connid"

  /** A context value, as far as the type assertions of `getRpcContext` tell them apart. */
  datatype Value = StrValue(s: string) | ListValue(l: seq<string>) | OtherValue

  type Context = map<string, Value>

  /** `metadata.MD`: lower-cased keys to their values. */
  type Metadata = map<string, seq<string>>

  /** `extractFunctionName`: the text after the last "/", or the whole name when there is none. */
  function ExtractFunctionName(funcName: string): (r: string)
    ensures '/' !in r
    ensures '/' !in funcName ==> r == funcName
  {
    Strs.LastSegmentProps(funcName, '/');
    Strs.LastSegment(funcName, '/')
  }

  /** A full method name `/package.Service/Method` yields `Method`. */
  lemma ExtractFunctionNameOfMethod(service: string, name: string)
    requires '/' !in name
    ensures ExtractFunctionName(service + "/" + name) == name
  {
    Strs.LastSegmentAfterSep(service, '/', name);
  }

  /** `md.Set(key, vals...)`: the key is lower-cased and its values replaced. */
  function Set(md: Metadata, key: string, vals: seq<string>): Metadata
  {
    md[Strs.ToLower(key) := vals]
  }

  /** `ctx.Value(key).(string)`. */
  function StringValue(ctx: Context, key: string): Option<string>
  {
    if key in ctx && ctx[key].StrValue? then Some(ctx[key].s) else None
  }

  /** `ctx.Value(key).([]string)`. */
  function ListValueOf(ctx: Context, key: string): Option<seq<string>>
  {
    if key in ctx && ctx[key].ListValue? then Some(ctx[key].l) else None
  }

  /** The custom-header keys listed in the context; none when absent or not a list. */
  function CustomKeys(ctx: Context): seq<string>
  {
    match ListValueOf(ctx, RpcCustomHeader)
    case Some(keys) => keys
    case None => []
  }

  /** The list a key holds, or nothing. */
  function ListOrEmpty(ctx: Context, key: string): seq<string>
  {
    match ListValueOf(ctx, key)
    case Some(l) => l
    case None => []
  }

  /** A listed key can be copied: it holds a non-empty list of strings. */
  predicate Usable(ctx: Context, key: string)
  {
    ListValueOf(ctx, key).Some? && |ListOrEmpty(ctx, key)| > 0
  }

  /** The error for a listed key that cannot be copied. */
  function KeyError(ctx: Context, key: string): Errs.Error
  {
    if ListValueOf(ctx, key).None? then Errs.WrapMsg(Errs.ErrInternalServer, "ctx missing key", ["key", key])
    else Errs.WrapMsg(Errs.ErrInternalServer, "ctx key value is empty", ["key", key])
  }

  /** The metadata the custom-header loop builds from `keys`, stopping at the first unusable key. */
  function CustomHeaders(ctx: Context, keys: seq<string>): (r: Result<Metadata, Errs.Error>)
    ensures r.Failure? ==> r.error != Errs.Nil
  {
    if keys == [] then Success(map[])
    else
      match CustomHeaders(ctx, keys[..|keys| - 1])
      case Failure(e) => Failure(e)
      case Success(md) =>
        var key := keys[|keys| - 1];
        if Usable(ctx, key) then Success(Set(md, key, ListOrEmpty(ctx, key)))
        else Failure(KeyError(ctx, key))
  }

  /** `md.Set(key, v)` for a string value that is present; nothing otherwise. */
  function SetIfPresent(md: Metadata, ctx: Context, key: string): Metadata
  {
    match StringValue(ctx, key)
    case Some(v) => Set(md, key, [v])
    case None => md
  }

  /** The custom headers (with their key list), then the operation id, then the three optional values. */
  function RpcMetadata(ctx: Context): (r: Result<Metadata, Errs.Error>)
    ensures r.Failure? ==> r.error != Errs.Nil
  {
    var keys := CustomKeys(ctx);
    var custom := CustomHeaders(ctx, keys);
    if custom.Failure? then Failure(custom.error)
    else
      var md0 := if |keys| > 0 then Set(custom.value, RpcCustomHeader, keys) else custom.value;
      match StringValue(ctx, OperationID)
      case None => Failure(Errs.WrapMsg(Errs.ErrArgs, "ctx missing operationID", []))
      case Some(op) =>
        Success(SetIfPresent(SetIfPresent(SetIfPresent(Set(md0, OperationID, [op]), ctx, OpUserID),
          ctx, OpUserPlatform), ctx, ConnID))
  }

  /** Once a prefix of the keys fails, the whole list fails with the same error. */
  lemma {:induction false} CustomHeadersFailurePersists(ctx: Context, keys: seq<string>, i: nat)
    requires i <= |keys| && CustomHeaders(ctx, keys[..i]).Failure?
    ensures CustomHeaders(ctx, keys) == CustomHeaders(ctx, keys[..i])
    decreases |keys| - i
  {
    if i < |keys| {
      var p := keys[..|keys| - 1];
      assert p[..i] == keys[..i];
      CustomHeadersFailurePersists(ctx, p, i);
    } else {
      assert keys[..i] == keys;
    }
  }

  /** The loop succeeds exactly when every listed key is usable. */
  lemma {:induction false} CustomHeadersSucceed(ctx: Context, keys: seq<string>)
    ensures CustomHeaders(ctx, keys).Success? <==> forall i :: 0 <= i < |keys| ==> Usable(ctx, keys[i])
  {
    if keys != [] {
      var p := keys[..|keys| - 1];
      CustomHeadersSucceed(ctx, p);
      assert forall i :: 0 <= i < |p| ==> p[i] == keys[i];
    }
  }

  /** A failing loop reports the first unusable key. */
  lemma {:induction false} CustomHeadersFirstFailure(ctx: Context, keys: seq<string>, i: nat)
    requires i < |keys| && !Usable(ctx, keys[i])
    requires forall j :: 0 <= j < i ==> Usable(ctx, keys[j])
    ensures CustomHeaders(ctx, keys) == Failure(KeyError(ctx, keys[i]))
  {
    var p := keys[..i + 1];
    assert p[..i] == keys[..i];
    CustomHeadersSucceed(ctx, keys[..i]);
    assert CustomHeaders(ctx, p) == Failure(KeyError(ctx, keys[i]));
    CustomHeadersFailurePersists(ctx, keys, i + 1);
  }

  /** The lower-cased forms of a list of keys. */
  function LowerKeys(keys: seq<string>): set<string>
  {
    set i | 0 <= i < |keys| :: Strs.ToLower(keys[i])
  }

  /** A successful loop holds exactly the lower-cased listed keys. */
  lemma {:induction false} CustomHeadersKeys(ctx: Context, keys: seq<string>)
    requires CustomHeaders(ctx, keys).Success?
    ensures CustomHeaders(ctx, keys).value.Keys == LowerKeys(keys)
  {
    if keys != [] {
      var n := |keys| - 1;
      var p := keys[..n];
      CustomHeadersKeys(ctx, p);
      assert forall i :: 0 <= i < n ==> p[i] == keys[i];
      assert LowerKeys(keys) == LowerKeys(p) + {Strs.ToLower(keys[n])};
    }
  }

  /** A listed key holds the values of its last listing (a later key with the same lower-cased form overwrites it). */
  lemma {:induction false} CustomHeadersValue(ctx: Context, keys: seq<string>, i: nat)
    requires CustomHeaders(ctx, keys).Success? && i < |keys|
    requires forall j :: i < j < |keys| ==> Strs.ToLower(keys[j]) != Strs.ToLower(keys[i])
    ensures Strs.ToLower(keys[i]) in CustomHeaders(ctx, keys).value
    ensures CustomHeaders(ctx, keys).value[Strs.ToLower(keys[i])] == ListOrEmpty(ctx, keys[i])
  {
    var n := |keys| - 1;
    var p := keys[..n];
    if i < n {
      CustomHeadersValue(ctx, p, i);
    }
  }

  /** `md.Set` stores the five context keys under their lower-cased forms. */
  lemma MdKeysLowered()
    ensures Strs.ToLower(RpcCustomHeader) == MdCustomHeader
    ensures Strs.ToLower(OperationID) == MdOperationID
    ensures Strs.ToLower(OpUserID) == MdOpUserID
    ensures Strs.ToLower(OpUserPlatform) == MdOpUserPlatform
    ensures Strs.ToLower(ConnID) == MdConnID
  {
  }

  /** The metadata keys `getRpcContext` itself writes after the custom headers. */
  function Reserved(): set<string>
  {
    {MdCustomHeader, MdOperationID, MdOpUserID, MdOpUserPlatform, MdConnID}
  }

  /** `getRpcContext` fails exactly on an unusable listed key or a missing operation id, in that order. */
  lemma RpcMetadataFailures(ctx: Context)
    ensures RpcMetadata(ctx).Success? <==>
      (forall i :: 0 <= i < |CustomKeys(ctx)| ==> Usable(ctx, CustomKeys(ctx)[i])) && StringValue(ctx, OperationID).Some?
    ensures forall i ::
      (0 <= i < |CustomKeys(ctx)| && !Usable(ctx, CustomKeys(ctx)[i]) && forall j :: 0 <= j < i ==> Usable(ctx, CustomKeys(ctx)[j])) ==>
        RpcMetadata(ctx) == Failure(KeyError(ctx, CustomKeys(ctx)[i]))
    ensures (forall i :: 0 <= i < |CustomKeys(ctx)| ==> Usable(ctx, CustomKeys(ctx)[i])) && StringValue(ctx, OperationID).None? ==>
      RpcMetadata(ctx) == Failure(Errs.WrapMsg(Errs.ErrArgs, "ctx missing operationID", []))
  {
    var keys := CustomKeys(ctx);
    CustomHeadersSucceed(ctx, keys);
    forall i | 0 <= i < |keys| && !Usable(ctx, keys[i]) && (forall j :: 0 <= j < i ==> Usable(ctx, keys[j]))
      ensures RpcMetadata(ctx) == Failure(KeyError(ctx, keys[i]))
    {
      CustomHeadersFirstFailure(ctx, keys, i);
    }
  }

  /** The operation id, and the key list when one was given. */
  lemma RpcMetadataCore(ctx: Context)
    requires RpcMetadata(ctx).Success?
    ensures MdOperationID in RpcMetadata(ctx).value
    ensures RpcMetadata(ctx).value[MdOperationID] == [StringValue(ctx, OperationID).value]
    ensures |CustomKeys(ctx)| > 0 ==>
      MdCustomHeader in RpcMetadata(ctx).value && RpcMetadata(ctx).value[MdCustomHeader] == CustomKeys(ctx)
  {
    MdKeysLowered();
  }

  /** Each optional value is in the metadata exactly when it is present as a string (barring a colliding custom key). */
  lemma RpcMetadataOptional(ctx: Context, key: string)
    requires RpcMetadata(ctx).Success?
    requires key in {OpUserID, OpUserPlatform, ConnID}
    requires LowerKeys(CustomKeys(ctx)) !! Reserved()
    ensures Strs.ToLower(key) in RpcMetadata(ctx).value <==> StringValue(ctx, key).Some?
    ensures StringValue(ctx, key).Some? ==> RpcMetadata(ctx).value[Strs.ToLower(key)] == [StringValue(ctx, key).value]
  {
    MdKeysLowered();
    CustomHeadersKeys(ctx, CustomKeys(ctx));
  }

  /** A custom header keeps the values of its last listing, unless a reserved key overwrites it. */
  lemma RpcMetadataCustom(ctx: Context, i: nat)
    requires RpcMetadata(ctx).Success? && i < |CustomKeys(ctx)|
    requires Strs.ToLower(CustomKeys(ctx)[i]) !in Reserved()
    requires forall j :: i < j < |CustomKeys(ctx)| ==> Strs.ToLower(CustomKeys(ctx)[j]) != Strs.ToLower(CustomKeys(ctx)[i])
    ensures Strs.ToLower(CustomKeys(ctx)[i]) in RpcMetadata(ctx).value
    ensures RpcMetadata(ctx).value[Strs.ToLower(CustomKeys(ctx)[i])] == ListOrEmpty(ctx, CustomKeys(ctx)[i])
  {
    MdKeysLowered();
    CustomHeadersValue(ctx, CustomKeys(ctx), i);
  }

  /** The custom-header loop of `getRpcContext`: copy each listed key, stopping at the first unusable one. */
  method CopyCustomHeaders(ctx: Context, keys: seq<string>) returns (md: Metadata, err: Errs.Error)
    ensures match CustomHeaders(ctx, keys)
      case Success(m) => err == Errs.Nil && md == m
      case Failure(e) => err == e && md == map[]
  {
    md := map[];
    var i := 0;
    while i < |keys|
      invariant 0 <= i <= |keys|
      invariant CustomHeaders(ctx, keys[..i]) == Success(md)
    {
      var key := keys[i];
      assert keys[..i + 1][..i] == keys[..i];
      var val := ListValueOf(ctx, key);
      if val.None? {
        CustomHeadersFailurePersists(ctx, keys, i + 1);
        return map[], Errs.WrapMsg(Errs.ErrInternalServer, "ctx missing key", ["key", key]);
      }
      if |val.value| == 0 {
        CustomHeadersFailurePersists(ctx, keys, i + 1);
        return map[], Errs.WrapMsg(Errs.ErrInternalServer, "ctx key value is empty", ["key", key]);
      }
      md := Set(md, key, val.value);
      i := i + 1;
    }
    assert keys[..i] == keys;
    err := Errs.Nil;
  }

  /** `getRpcContext`: the outgoing metadata, or the error that stops it. */
  method GetRpcContext(ctx: Context) returns (md: Metadata, err: Errs.Error)
    ensures match RpcMetadata(ctx)
      case Success(m) => err == Errs.Nil && md == m
      case Failure(e) => err == e && md == map[]
  {
    md := map[];
    var keys := CustomKeys(ctx);
    if |keys| > 0 {
      md, err := CopyCustomHeaders(ctx, keys);
      if err != Errs.Nil {
        return;
      }
      md := Set(md, RpcCustomHeader, keys);
    }
    var operationID := StringValue(ctx, OperationID);
    if operationID.None? {
      return map[], Errs.WrapMsg(Errs.ErrArgs, "ctx missing operationID", []);
    }
    md := Set(md, OperationID, [operationID.value]);
    md := SetIfPresent(md, ctx, OpUserID);
    md := SetIfPresent(md, ctx, OpUserPlatform);
    md := SetIfPresent(md, ctx, ConnID);
    err := Errs.Nil;
  }

  /** One entry of a gRPC status's details. */
  datatype Detail = ErrorInfo(warp: seq<string>, cause: string) | OtherDetail

  /** What the invoked call returns: nil, an error without a gRPC status, or a status error. */
  datatype CallError =
    | CallOk
    | PlainError(text: string)
    | StatusError(code: int, message: string, details: seq<Detail>, text: string)

  /** The error-translation branches of `RpcClientInterceptor`, after the call returned an error. */
  function TranslateError(e: CallError): (r: Errs.Error)
    ensures e.CallOk? <==> r == Errs.Nil
  {
    match e
    case CallOk => Errs.Nil
    case PlainError(text) => Errs.WrapMsg(Errs.ErrInternalServer, text, [])
    case StatusError(code, message, details, text) =>
      if code == 0 then Errs.Wrap(Errs.NewCodeError(Errs.ServerInternalError, text))
      else if |details| > 0 && details[0].ErrorInfo? then
        Errs.Wrap(Errs.WithDetail(Errs.NewCodeError(code, message), Strs.Join(details[0].warp, "->") + details[0].cause))
      else Errs.Wrap(Errs.NewCodeError(code, message))
  }

  /**
   * What `errs.Unwrap` finds under a translated error: the internal-server error for a
   * plain error, a code-500 error carrying the error text for status code 0, and
   * otherwise the status code and message, with the ErrorInfo trail as the detail when
   * the first detail is one.
   */
  lemma TranslateErrorUnwrapped(e: CallError)
    requires !e.CallOk?
    ensures e.PlainError? ==> Errs.Innermost(TranslateError(e)) == Errs.ErrInternalServer
    ensures e.StatusError? && e.code == 0 ==>
      Errs.Innermost(TranslateError(e)) == Errs.Code(Errs.ServerInternalError, e.text, "")
    ensures e.StatusError? && e.code != 0 ==>
      var info := |e.details| > 0 && e.details[0].ErrorInfo?;
      Errs.Innermost(TranslateError(e)) ==
        Errs.Code(e.code, e.message, if info then Strs.Join(e.details[0].warp, "->") + e.details[0].cause else "")
  {
    match e
    case PlainError(text) =>
      Errs.WrapMsgTransparent(Errs.ErrInternalServer, text, []);
    case StatusError(code, message, details, text) =>
  }

  /**
   * `RpcClientInterceptor`: a nil context and a failing `getRpcContext` stop before the
   * call; otherwise the call gets the outgoing metadata and its error is translated.
   */
  method RpcClientInterceptor(ctx: Option<Context>, methodName: string, invoker: Metadata -> CallError)
    returns (err: Errs.Error)
    ensures ctx.None? ==> err == Errs.WrapMsg(Errs.ErrInternalServer, "call rpc request context is nil", [])
    ensures ctx.Some? && RpcMetadata(ctx.value).Failure? ==> err == RpcMetadata(ctx.value).error
    ensures ctx.Some? && RpcMetadata(ctx.value).Success? ==> err == TranslateError(invoker(RpcMetadata(ctx.value).value))
  {
    if ctx.None? {
      return Errs.WrapMsg(Errs.ErrInternalServer, "call rpc request context is nil", []);
    }
    var md, e := GetRpcContext(ctx.value);
    if e != Errs.Nil {
      return e;
    }
    var outcome := invoker(md);
    if outcome.CallOk? {
      return Errs.Nil;
    }
    err := TranslateError(outcome);
  }
}
