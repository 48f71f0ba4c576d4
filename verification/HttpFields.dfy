/**
  HTTP header fields: an ordered multimap queried without regard to ASCII letter
  case, and the error values of the HTTP module.
 */
module HttpFields {
  import opened Text

  datatype HttpErrorKind =
    | Io
    | InvalidMessage
    | InvalidState
    | HeaderLimitExceeded
    | BodyLimitExceeded
    | Unsupported

  datatype Outcome<+T> = Ok(value: T) | Err(kind: HttpErrorKind)

  datatype Header = Header(name: string, value: string)

  predicate IsTokenChar(c: char) {
    'a' <= c <= 'z' || 'A' <= c <= 'Z' || '0' <= c <= '9' || c in "!#$%&'*+-.^_`|~"
  }

  predicate ValidName(name: string) {
    name != [] && forall i :: 0 <= i < |name| ==> IsTokenChar(name[i])
  }

  predicate ValidValue(value: string) {
    forall i :: 0 <= i < |value| ==> value[i] == '\t' || (' ' <= value[i] && value[i] != '\U{7F}')
  }

  predicate ValidHeader(h: Header) {
    ValidName(h.name) && ValidValue(h.value)
  }

  /** What `append` and `set` let into the collection. */
  predicate ValidFields(fields: seq<Header>) {
    forall h :: h in fields ==> ValidHeader(h)
  }

  function GetAll(fields: seq<Header>, name: string): seq<string> {
    if fields == [] then []
    else (if EqualsIgnoreCase(fields[0].name, name) then [fields[0].value] else []) + GetAll(fields[1..], name)
  }

  predicate Contains(fields: seq<Header>, name: string) {
    exists i :: 0 <= i < |fields| && EqualsIgnoreCase(fields[i].name, name)
  }

  function Without(fields: seq<Header>, name: string): seq<Header> {
    if fields == [] then []
    else (if EqualsIgnoreCase(fields[0].name, name) then [] else [fields[0]]) + Without(fields[1..], name)
  }

  lemma {:induction false} GetAllConcat(a: seq<Header>, b: seq<Header>, name: string)
    ensures GetAll(a + b, name) == GetAll(a, name) + GetAll(b, name)
  {
    if a == [] {
      assert a + b == b;
    } else {
      assert (a + b)[1..] == a[1..] + b;
      GetAllConcat(a[1..], b, name);
    }
  }

  lemma {:induction false} ContainsIffGetAll(fields: seq<Header>, name: string)
    ensures Contains(fields, name) <==> GetAll(fields, name) != []
  {
    if fields != [] {
      ContainsIffGetAll(fields[1..], name);
      if Contains(fields[1..], name) {
        var i :| 0 <= i < |fields[1..]| && EqualsIgnoreCase(fields[1..][i].name, name);
        assert EqualsIgnoreCase(fields[i + 1].name, name);
      }
      if Contains(fields, name) && !EqualsIgnoreCase(fields[0].name, name) {
        var i :| 0 <= i < |fields| && EqualsIgnoreCase(fields[i].name, name);
        assert EqualsIgnoreCase(fields[1..][i - 1].name, name);
      }
    }
  }

  lemma {:induction false} WithoutAbsent(fields: seq<Header>, name: string)
    requires !Contains(fields, name)
    ensures Without(fields, name) == fields
  {
    if fields != [] {
      assert forall i :: 0 <= i < |fields[1..]| ==> fields[1..][i] == fields[i + 1];
      WithoutAbsent(fields[1..], name);
    }
  }

  /** After `set`, the name has exactly the new value and no other name changes. */
  lemma {:induction false} SetThenGetAll(fields: seq<Header>, name: string, value: string, other: string)
    ensures GetAll(Without(fields, name) + [Header(name, value)], other)
         == if EqualsIgnoreCase(name, other) then [value] else GetAll(fields, other)
  {
    hide GetAll, EqualsIgnoreCase;
    var added := [Header(name, value)];
    GetAllConcat(Without(fields, name), added, other);
    GetAllOne(added[0], other);
    GetAllWithout(fields, name, other);
  }

  lemma GetAllOne(h: Header, name: string)
    ensures GetAll([h], name) == if EqualsIgnoreCase(h.name, name) then [h.value] else []
  {
    assert [h][1..] == [];
  }

  lemma SameName(a: string, b: string, c: string)
    requires EqualsIgnoreCase(a, b)
    ensures EqualsIgnoreCase(a, c) <==> EqualsIgnoreCase(b, c)
  {
  }

  lemma {:induction false} GetAllWithout(fields: seq<Header>, name: string, other: string)
    ensures GetAll(Without(fields, name), other) == if EqualsIgnoreCase(name, other) then [] else GetAll(fields, other)
  {
    hide EqualsIgnoreCase;
    if fields != [] {
      GetAllWithout(fields[1..], name, other);
      var rest := Without(fields[1..], name);
      if EqualsIgnoreCase(fields[0].name, name) {
        SameName(fields[0].name, name, other);
        assert Without(fields, name) == rest;
      } else {
        assert ([fields[0]] + rest)[1..] == rest;
        if EqualsIgnoreCase(fields[0].name, other) && EqualsIgnoreCase(name, other) {
          Symmetric(name, other);
          Symmetric(fields[0].name, other);
          SameName(other, fields[0].name, name);
        }
      }
    }
  }

  lemma Symmetric(a: string, b: string)
    ensures EqualsIgnoreCase(a, b) <==> EqualsIgnoreCase(b, a)
  {
  }

  lemma WithoutNone(name: string)
    ensures Without([], name) == []
  {
  }

  lemma WithoutStep(fields: seq<Header>, name: string)
    requires fields != []
    ensures Without(fields, name) == (if EqualsIgnoreCase(fields[0].name, name) then [] else [fields[0]]) + Without(fields[1..], name)
  {
  }

  class HttpHeaders {
    var entries: seq<Header>

    ghost predicate Valid()
      reads this
    {
      ValidFields(entries)
    }

    constructor ()
      ensures Valid() && entries == []
    {
      entries := [];
    }

    method Append(name: string, value: string) returns (r: Outcome<()>)
      requires Valid()
      modifies this
      ensures Valid()
      ensures ValidHeader(Header(name, value)) ==> r == Ok(()) && entries == old(entries) + [Header(name, value)]
      ensures !ValidHeader(Header(name, value)) ==> r == Err(InvalidMessage) && entries == old(entries)
    {
      if !ValidName(name) || !ValidValue(value) {
        return Err(InvalidMessage);
      }
      entries := entries + [Header(name, value)];
      r := Ok(());
    }

    method Remove(name: string) returns (removed: nat)
      requires Valid()
      modifies this
      ensures Valid()
      ensures entries == Without(old(entries), name)
      ensures removed == |old(entries)| - |entries|
    {
      hide EqualsIgnoreCase, ValidHeader, Without;
      var kept: seq<Header> := [];
      for i := 0 to |entries|
        invariant entries == old(entries)
        invariant ValidFields(kept) && |kept| <= i
        invariant Without(entries, name) == kept + Without(entries[i..], name)
      {
        assert entries[i..][1..] == entries[i + 1..];
        WithoutStep(entries[i..], name);
        if !EqualsIgnoreCase(entries[i].name, name) {
          kept := kept + [entries[i]];
        }
      }
      assert entries[|entries|..] == [];
      WithoutNone(name);
      removed := |entries| - |kept|;
      entries := kept;
    }

    method Set(name: string, value: string) returns (r: Outcome<()>)
      requires Valid()
      modifies this
      ensures Valid()
      ensures ValidHeader(Header(name, value)) ==>
                r == Ok(()) && entries == Without(old(entries), name) + [Header(name, value)]
      ensures !ValidHeader(Header(name, value)) ==> r == Err(InvalidMessage) && entries == old(entries)
    {
      if !ValidName(name) || !ValidValue(value) {
        return Err(InvalidMessage);
      }
      var _ := Remove(name);
      entries := entries + [Header(name, value)];
      r := Ok(());
    }
  }

  // ------------------------------------------------------------ fields on the wire

  /** The fields as a receiver sees them: blanks around each value are not significant. */
  function Delivered(fields: seq<Header>): (r: seq<Header>)
    ensures |r| == |fields|
  {
    if fields == [] then []
    else [Header(fields[0].name, Trim(fields[0].value))] + Delivered(fields[1..])
  }

  function TrimAll(values: seq<string>): seq<string> {
    if values == [] then [] else [Trim(values[0])] + TrimAll(values[1..])
  }

  lemma {:induction false} GetAllDelivered(fields: seq<Header>, name: string)
    ensures GetAll(Delivered(fields), name) == TrimAll(GetAll(fields, name))
  {
    if fields != [] {
      GetAllDelivered(fields[1..], name);
      assert Delivered(fields)[1..] == Delivered(fields[1..]);
      var rest := GetAll(fields[1..], name);
      if EqualsIgnoreCase(fields[0].name, name) {
        assert ([fields[0].value] + rest)[1..] == rest;
      } else {
        assert [] + rest == rest;
      }
    }
  }

  lemma ContainsDelivered(fields: seq<Header>, name: string)
    ensures Contains(Delivered(fields), name) <==> Contains(fields, name)
  {
    GetAllDelivered(fields, name);
    ContainsIffGetAll(fields, name);
    ContainsIffGetAll(Delivered(fields), name);
  }
}
