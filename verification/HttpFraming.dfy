/**
  How the header fields of a message determine the extent of its body.
 */
module HttpFraming {
  import opened Text
  import opened Numerals
  import opened HttpFields

  datatype BodyKind = NoBody | ContentLength | Chunked | CloseDelimited

  datatype BodyInfo = BodyInfo(kind: BodyKind, contentLength: usize)

  const CONTENT_LENGTH := "Content-Length"
  const TRANSFER_ENCODING := "Transfer-Encoding"

  /** Every list member of the field value is the decimal number `n`. */
  predicate Declares(value: string, n: nat) {
    forall t :: t in Tokens(value) ==> IsNumeral(t, 10) && Value(t, 10) == n
  }

  predicate AllDeclare(values: seq<string>, n: nat) {
    forall v :: v in values ==> Declares(v, n)
  }

  /** All list members of all Content-Length fields must be the same decimal number. */
  function DeclaredLength(values: seq<string>): Outcome<Option<usize>> {
    if values == [] then Ok(None)
    else
      var first := Tokens(values[0])[0];
      if IsNumeral(first, 10) && AllDeclare(values, Value(first, 10))
      then Ok(Some(Value(first, 10)))
      else Err(InvalidMessage)
  }

  /** The only accepted list of transfer codings is the single member `chunked`. */
  function DeclaredChunked(values: seq<string>): Outcome<bool> {
    if values == [] then Ok(false)
    else if exists v :: v in values && "" in Tokens(v) then Err(InvalidMessage)
    else if |values| == 1 && |Tokens(values[0])| == 1 && EqualsIgnoreCase(Tokens(values[0])[0], "chunked")
    then Ok(true)
    else Err(Unsupported)
  }

  /** The framing decision; `closeDelimited` selects the reading of a message without framing fields. */
  function Framing(fields: seq<Header>, closeDelimited: bool): Outcome<BodyInfo> {
    match DeclaredLength(GetAll(fields, CONTENT_LENGTH))
    case Err(k) => Err(k)
    case Ok(length) =>
      match DeclaredChunked(GetAll(fields, TRANSFER_ENCODING))
      case Err(k) => Err(k)
      case Ok(chunked) =>
        if chunked && length.Some? then Err(InvalidMessage)
        else if chunked then Ok(BodyInfo(Chunked, 0))
        else if length.Some? then Ok(BodyInfo(ContentLength, length.value))
        else Ok(BodyInfo(if closeDelimited then CloseDelimited else NoBody, 0))
  }

  // ------------------------------------------------------------- what the fields announce

  /** The only transfer coding of the message is `chunked`, in any letter case. */
  predicate OnlyChunked(fields: seq<Header>) {
    var values := GetAll(fields, "Transfer-Encoding");
    |values| == 1 && |Tokens(values[0])| == 1 && EqualsIgnoreCase(Tokens(values[0])[0], "chunked")
  }

  /** There is a Content-Length field, and every member of every such field is the number `n`. */
  predicate OnlyLength(fields: seq<Header>, n: nat) {
    Contains(fields, "Content-Length") && AllDeclare(GetAll(fields, "Content-Length"), n)
  }

  /** What the fields say about the body, outcome by outcome. */
  predicate Announces(fields: seq<Header>, closeDelimited: bool, info: BodyInfo) {
    match info
    case BodyInfo(Chunked, n) => !Contains(fields, "Content-Length") && OnlyChunked(fields) && n == 0
    case BodyInfo(ContentLength, n) => !Contains(fields, "Transfer-Encoding") && OnlyLength(fields, n)
    case BodyInfo(NoBody, n) => Unframed(fields) && !closeDelimited && n == 0
    case BodyInfo(CloseDelimited, n) => Unframed(fields) && closeDelimited && n == 0
  }

  predicate Unframed(fields: seq<Header>) {
    !Contains(fields, "Content-Length") && !Contains(fields, "Transfer-Encoding")
  }

  lemma DeclaredLengthIff(values: seq<string>, n: usize)
    ensures DeclaredLength(values) == Ok(Some(n)) <==> values != [] && AllDeclare(values, n)
  {
    hide Tokens, Value, AllDigits;
    if values != [] && AllDeclare(values, n) {
      assert values[0] in values && Tokens(values[0])[0] in Tokens(values[0]);
    }
  }

  lemma DeclaredChunkedIff(values: seq<string>)
    ensures DeclaredChunked(values) == Ok(true) <==>
              |values| == 1 && |Tokens(values[0])| == 1 && EqualsIgnoreCase(Tokens(values[0])[0], "chunked")
  {
    hide Tokens, EqualsIgnoreCase;
    if |values| == 1 && |Tokens(values[0])| == 1 {
      assert Tokens(values[0]) == [Tokens(values[0])[0]];
      assert forall v :: v in values ==> v == values[0];
      if EqualsIgnoreCase(Tokens(values[0])[0], "chunked") {
        SameLengths(Tokens(values[0])[0], "chunked");
      }
    }
  }

  lemma SameLengths(a: string, b: string)
    requires EqualsIgnoreCase(a, b)
    ensures |a| == |b|
  {
  }

  /** The framing of a message is what its fields announce, whatever the fields are. */
  lemma FramingIff(fields: seq<Header>, closeDelimited: bool)
    ensures forall info :: Framing(fields, closeDelimited) == Ok(info) <==> Announces(fields, closeDelimited, info)
  {
    hide DeclaredLength, DeclaredChunked, GetAll, Contains, OnlyLength, OnlyChunked;
    forall info
      ensures Framing(fields, closeDelimited) == Ok(info) <==> Announces(fields, closeDelimited, info)
    {
      FramingOutcome(fields, closeDelimited, info);
    }
  }

  lemma FramingOutcome(fields: seq<Header>, closeDelimited: bool, info: BodyInfo)
    ensures Framing(fields, closeDelimited) == Ok(info) <==> Announces(fields, closeDelimited, info)
  {
    hide Tokens, IsNumeral, Value, AllDigits, GetAll, Contains, DeclaredLength, DeclaredChunked, EqualsIgnoreCase;
    var lengths, codings := GetAll(fields, CONTENT_LENGTH), GetAll(fields, TRANSFER_ENCODING);
    ContainsIffGetAll(fields, CONTENT_LENGTH);
    ContainsIffGetAll(fields, TRANSFER_ENCODING);
    DeclaredLengthIff(lengths, info.contentLength);
    DeclaredChunkedIff(codings);
    DeclaresNothing(lengths, codings);
  }

  lemma DeclaresNothing(lengths: seq<string>, codings: seq<string>)
    ensures DeclaredLength(lengths) == Ok(None) <==> lengths == []
    ensures DeclaredChunked(codings) == Ok(false) <==> codings == []
  {
  }

  /** Both fields together are refused, whatever their values. */
  lemma BothFieldsRefused(fields: seq<Header>, closeDelimited: bool)
    requires Contains(fields, "Content-Length") && Contains(fields, "Transfer-Encoding")
    ensures Framing(fields, closeDelimited).Err?
  {
    hide Framing, Contains;
    FramingIff(fields, closeDelimited);
    var r := Framing(fields, closeDelimited);
    assert r.Ok? ==> Announces(fields, closeDelimited, r.value);
  }

  /** The Content-Length fields, if there are any, agree on one number. */
  ghost predicate LengthsAgree(fields: seq<Header>) {
    !Contains(fields, "Content-Length") || exists n: nat :: OnlyLength(fields, n)
  }

  /** A transfer coding other than a single `chunked` is unsupported; anything else that is refused is invalid. */
  lemma RefusalKind(fields: seq<Header>, closeDelimited: bool)
    requires Framing(fields, closeDelimited).Err?
    ensures var kind := Framing(fields, closeDelimited).kind;
            && (kind == Unsupported || kind == InvalidMessage)
            && (kind == Unsupported <==>
                  && LengthsAgree(fields) && Contains(fields, "Transfer-Encoding") && !OnlyChunked(fields)
                  && forall v :: v in GetAll(fields, "Transfer-Encoding") ==> "" !in Tokens(v))
  {
    hide Tokens, GetAll, Contains, DeclaredLength, EqualsIgnoreCase, OnlyLength;
    var lengths, codings := GetAll(fields, CONTENT_LENGTH), GetAll(fields, TRANSFER_ENCODING);
    ContainsIffGetAll(fields, CONTENT_LENGTH);
    ContainsIffGetAll(fields, TRANSFER_ENCODING);
    DeclaredChunkedIff(codings);
    LengthsAgreeIff(fields);
  }

  lemma LengthsAgreeIff(fields: seq<Header>)
    ensures LengthsAgree(fields) <==> DeclaredLength(GetAll(fields, CONTENT_LENGTH)).Ok?
    ensures DeclaredLength(GetAll(fields, CONTENT_LENGTH)).Err? ==> DeclaredLength(GetAll(fields, CONTENT_LENGTH)).kind == InvalidMessage
  {
    hide Tokens, GetAll, Contains, Value, AllDigits;
    var lengths := GetAll(fields, CONTENT_LENGTH);
    ContainsIffGetAll(fields, CONTENT_LENGTH);
    if lengths != [] {
      var first := Tokens(lengths[0])[0];
      assert lengths[0] in lengths && first in Tokens(lengths[0]);
      if n: nat :| OnlyLength(fields, n) {
        assert Declares(lengths[0], n);
      }
      if DeclaredLength(lengths).Ok? {
        assert OnlyLength(fields, Value(first, 10));
      }
    }
  }

  // ---------------------------------------------------------------- scanning forms

  lemma TokensUnfold(value: string, position: nat, comma: nat)
    requires position <= |value|
    requires comma == IndexOf(value[position..], ',')
    ensures comma == |value| - position ==> Tokens(value[position..]) == [Trim(value[position..])]
    ensures comma < |value| - position ==>
              Tokens(value[position..]) == [Trim(value[position..position + comma])] + Tokens(value[position + comma + 1..])
  {
    var rest := value[position..];
    if comma < |rest| {
      assert rest[..comma] == value[position..position + comma];
      assert rest[comma + 1..] == value[position + comma + 1..];
    }
  }

  /** One list member: the trimmed text up to the next comma and where to resume, if anywhere. */
  method NextToken(value: string, position: nat) returns (token: string, next: Option<nat>)
    requires position <= |value|
    ensures token == Tokens(value[position..])[0]
    ensures next.None? ==> Tokens(value[position..]) == [token]
    ensures next.Some? ==> position < next.value <= |value|
    ensures next.Some? ==> Tokens(value[position..]) == [token] + Tokens(value[next.value..])
  {
    var comma := IndexOf(value[position..], ',');
    TokensUnfold(value, position, comma);
    if comma == |value| - position {
      token := TrimOws(value[position..]);
      next := None;
    } else {
      token := TrimOws(value[position..position + comma]);
      next := Some(position + comma + 1);
    }
  }

  /** One Content-Length field: `None` when a member is malformed or differs from `parsed`. */
  method ScanLength(value: string, parsed: Option<usize>) returns (r: Option<usize>)
    ensures r.Some? ==> Declares(value, r.value) && (parsed.Some? ==> r == parsed)
    ensures r.None? ==> forall n :: Declares(value, n) ==> parsed.Some? && parsed.value != n
  {
    hide Tokens, Value, AllDigits;
    r := parsed;
    ghost var all, k := Tokens(value), 0;
    var position := Some(0);
    assert value[0..] == value;
    while position.Some?
      invariant k <= |all|
      invariant position.Some? ==> position.value <= |value| && Tokens(value[position.value..]) == all[k..]
      invariant position.None? ==> k == |all|
      invariant forall i :: 0 <= i < k ==> IsNumeral(all[i], 10) && r.Some? && Value(all[i], 10) == r.value
      invariant k == 0 ==> r == parsed
      invariant parsed.Some? ==> r == parsed
      decreases if position.Some? then |value| - position.value + 1 else 0
    {
      var token, next := NextToken(value, position.value);
      assert all[k..][0] == all[k] && all[k..][1..] == all[k + 1..];
      assert all[0] in all && all[k] in all;
      if token == "" {
        return None;
      }
      var length := ParseNumeral(token, 10);
      if length.None? || (r.Some? && r.value != length.value) {
        return None;
      }
      r := length;
      k := k + 1;
      position := next;
    }
    assert all[0] in all;
  }

  method ParseContentLength(values: seq<string>) returns (r: Outcome<Option<usize>>)
    ensures r == DeclaredLength(values)
  {
    var parsed: Option<usize> := None;
    for i := 0 to |values|
      invariant parsed.None? <==> i == 0
      invariant parsed.Some? ==> forall j :: 0 <= j < i ==> Declares(values[j], parsed.value)
    {
      ghost var first := Tokens(values[0])[0];
      assert first in Tokens(values[0]);
      var length := ScanLength(values[i], parsed);
      if length.None? {
        assert values[i] in values;
        return Err(InvalidMessage);
      }
      parsed := length;
    }
    if values != [] {
      assert Tokens(values[0])[0] in Tokens(values[0]);
    }
    r := Ok(parsed);
  }

  /** The members of one Transfer-Encoding field, or `None` when one of them is empty. */
  method ScanCodings(value: string) returns (r: Option<seq<string>>)
    ensures r == if "" in Tokens(value) then None else Some(Tokens(value))
  {
    var codings: seq<string> := [];
    ghost var all := Tokens(value);
    var position := Some(0);
    assert value[0..] == value;
    while position.Some?
      invariant |codings| <= |all| && codings == all[..|codings|] && "" !in codings
      invariant position.Some? ==> position.value <= |value| && Tokens(value[position.value..]) == all[|codings|..]
      invariant position.None? ==> |codings| == |all|
      decreases if position.Some? then |value| - position.value + 1 else 0
    {
      var token, next := NextToken(value, position.value);
      ghost var k := |codings|;
      assert all[k..][0] == all[k] && all[k..][1..] == all[k + 1..];
      assert all[k] in all;
      if token == "" {
        return None;
      }
      codings := codings + [token];
      position := next;
    }
    assert codings == all;
    r := Some(codings);
  }

  method ParseChunkedTransferEncoding(values: seq<string>) returns (r: Outcome<bool>)
    ensures r == DeclaredChunked(values)
  {
    if values == [] {
      return Ok(false);
    }
    var codings: seq<string> := [];
    for i := 0 to |values|
      invariant forall j :: 0 <= j < i ==> "" !in Tokens(values[j])
      invariant i <= |codings|
      invariant i == 0 ==> codings == []
      invariant i == 1 ==> codings == Tokens(values[0])
    {
      var members := ScanCodings(values[i]);
      if members.None? {
        assert values[i] in values;
        return Err(InvalidMessage);
      }
      codings := codings + members.value;
    }
    if |codings| != 1 || !EqualsIgnoreCase(codings[0], "chunked") {
      return Err(Unsupported);
    }
    r := Ok(true);
  }

  /** The framing decision as a program; whether the fields declare what it returns does not depend on `Framing`. */
  method BodyFraming(fields: seq<Header>, closeDelimited: bool) returns (r: Outcome<BodyInfo>)
    ensures r == Framing(fields, closeDelimited)
    ensures forall info :: r == Ok(info) <==> Announces(fields, closeDelimited, info)
    ensures Contains(fields, "Content-Length") && Contains(fields, "Transfer-Encoding") ==> r.Err?
  {
    FramingIff(fields, closeDelimited);
    if Contains(fields, CONTENT_LENGTH) && Contains(fields, TRANSFER_ENCODING) {
      BothFieldsRefused(fields, closeDelimited);
    }
    var length := ParseContentLength(GetAll(fields, CONTENT_LENGTH));
    if length.Err? {
      return Err(length.kind);
    }
    var chunked := ParseChunkedTransferEncoding(GetAll(fields, TRANSFER_ENCODING));
    if chunked.Err? {
      return Err(chunked.kind);
    }
    if chunked.value && length.value.Some? {
      return Err(InvalidMessage);
    }
    if chunked.value {
      return Ok(BodyInfo(Chunked, 0));
    }
    if length.value.Some? {
      return Ok(BodyInfo(ContentLength, length.value.value));
    }
    r := Ok(BodyInfo(if closeDelimited then CloseDelimited else NoBody, 0));
  }

  // -------------------------------------------------------------------- properties

  lemma {:induction false} TokensTrimAll(values: seq<string>)
    ensures |TrimAll(values)| == |values|
    ensures forall i :: 0 <= i < |values| ==> Tokens(TrimAll(values)[i]) == Tokens(values[i])
  {
    if values != [] {
      TokensTrim(values[0]);
      TokensTrimAll(values[1..]);
      forall i | 0 <= i < |values|
        ensures Tokens(TrimAll(values)[i]) == Tokens(values[i])
      {
        if i > 0 {
          assert TrimAll(values)[i] == TrimAll(values[1..])[i - 1];
          assert values[1..][i - 1] == values[i];
        }
      }
    }
  }

  /** The two declarations depend only on the list members of each value. */
  lemma DeclaredByTokens(a: seq<string>, b: seq<string>)
    requires |a| == |b| && forall i :: 0 <= i < |a| ==> Tokens(a[i]) == Tokens(b[i])
    ensures DeclaredLength(a) == DeclaredLength(b)
    ensures DeclaredChunked(a) == DeclaredChunked(b)
  {
    SameLength(a, b);
    SameLength(b, a);
    SameEmptyMember(a, b);
    SameEmptyMember(b, a);
  }

  lemma SameLength(a: seq<string>, b: seq<string>)
    requires |a| == |b| && forall i :: 0 <= i < |a| ==> Tokens(a[i]) == Tokens(b[i])
    ensures forall n :: AllDeclare(a, n) ==> AllDeclare(b, n)
  {
    forall n, v | AllDeclare(a, n) && v in b
      ensures Declares(v, n)
    {
      var i :| 0 <= i < |b| && b[i] == v;
      assert a[i] in a;
    }
  }

  lemma SameEmptyMember(a: seq<string>, b: seq<string>)
    requires |a| == |b| && forall i :: 0 <= i < |a| ==> Tokens(a[i]) == Tokens(b[i])
    ensures (exists v :: v in a && "" in Tokens(v)) ==> exists v :: v in b && "" in Tokens(v)
  {
    if v :| v in a && "" in Tokens(v) {
      var i :| 0 <= i < |a| && a[i] == v;
      assert b[i] in b;
    }
  }

  /** Sender and receiver agree on the framing although the receiver trims every value. */
  lemma FramingDelivered(fields: seq<Header>, closeDelimited: bool)
    ensures Framing(Delivered(fields), closeDelimited) == Framing(fields, closeDelimited)
  {
    hide GetAll, DeclaredLength, DeclaredChunked;
    forall name: string
      ensures DeclaredLength(GetAll(Delivered(fields), name)) == DeclaredLength(GetAll(fields, name))
      ensures DeclaredChunked(GetAll(Delivered(fields), name)) == DeclaredChunked(GetAll(fields, name))
    {
      GetAllDelivered(fields, name);
      TokensTrimAll(GetAll(fields, name));
      DeclaredByTokens(TrimAll(GetAll(fields, name)), GetAll(fields, name));
    }
  }

  /** A message without framing fields becomes a length-delimited one when its length is set. */
  lemma FramingAfterSet(fields: seq<Header>, n: usize, closeDelimited: bool)
    requires Framing(fields, false) == Ok(BodyInfo(NoBody, 0))
    ensures !Contains(fields, CONTENT_LENGTH)
    ensures Without(fields, CONTENT_LENGTH) == fields
    ensures Framing(fields + [Header(CONTENT_LENGTH, Print(n, 10))], closeDelimited)
         == Ok(BodyInfo(ContentLength, n))
  {
    hide GetAll, Print, DeclaredLength, DeclaredChunked;
    ContainsIffGetAll(fields, CONTENT_LENGTH);
    UndeclaredIsAbsent(fields);
    WithoutAbsent(fields, CONTENT_LENGTH);
    var added := [Header(CONTENT_LENGTH, Print(n, 10))];
    GetAllConcat(fields, added, CONTENT_LENGTH);
    GetAllConcat(fields, added, TRANSFER_ENCODING);
    FramingNames(added[0].value);
    PrintedLength(n);
  }

  /** Without framing fields there is nothing declared. */
  lemma UndeclaredIsAbsent(fields: seq<Header>)
    requires Framing(fields, false) == Ok(BodyInfo(NoBody, 0))
    ensures GetAll(fields, CONTENT_LENGTH) == [] && GetAll(fields, TRANSFER_ENCODING) == []
  {
    hide GetAll;
  }

  lemma PrintedLength(n: usize)
    ensures DeclaredLength([] + [Print(n, 10)]) == Ok(Some(n)) && DeclaredChunked([] + []) == Ok(false)
  {
    hide Print, Tokens;
    PrintedIsOneToken(n);
    PrintThenValue(n, 10);
    assert [] + [Print(n, 10)] == [Print(n, 10)];
  }

  lemma FramingNames(value: string)
    ensures GetAll([Header(CONTENT_LENGTH, value)], TRANSFER_ENCODING) == []
    ensures GetAll([Header(CONTENT_LENGTH, value)], CONTENT_LENGTH) == [value]
  {
    GetAllOne(Header(CONTENT_LENGTH, value), TRANSFER_ENCODING);
    GetAllOne(Header(CONTENT_LENGTH, value), CONTENT_LENGTH);
  }

  lemma PrintedIsOneToken(n: nat)
    ensures Tokens(Print(n, 10)) == [Print(n, 10)]
  {
    var s := Print(n, 10);
    PrintThenValue(n, 10);
    IndexOfIs(s, ',', |s|);
  }
}
