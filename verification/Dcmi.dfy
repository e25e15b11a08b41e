/**
 DCMI strings of at most 64 bytes, written and read in chunks of at most 16, and lists read page by page.
 */
module Dcmi {
  import opened Ipmi

  const MAX_STRING: nat := 64
  const STRING_CHUNK: nat := 16

  datatype StringKind = AssetTag | ControllerId

  datatype DcmiError = Bounds | Page

  datatype PageError = Transport(error: IpmiError) | Protocol(reason: DcmiError)

  datatype StringWriteError = Invalid(reason: DcmiError) | Uncertain(confirmedBytes: nat, error: IpmiError)

  datatype Reply<+T> = Success(value: T) | Failure(error: IpmiError)

  datatype StringPage = StringPage(total: byte, bytes: seq<byte>)

  /** What `GetString` and `SetString` allow: one chunk inside the string, empty only at its beginning. */
  predicate ChunkOk(offset: nat, length: nat) {
    length <= STRING_CHUNK && offset + length <= MAX_STRING && (length == 0 ==> offset == 0)
  }

  datatype GetString = GetString(kind: StringKind, offset: byte, length: byte)

  function NewGetString(kind: StringKind, offset: byte, length: byte): (r: Result<GetString, DcmiError>)
    ensures r.Ok? <==> ChunkOk(offset, length)
  {
    if length > STRING_CHUNK || (offset as int) + (length as int) > MAX_STRING || (length == 0 && offset != 0)
    then Err(Bounds)
    else Ok(GetString(kind, offset, length))
  }

  datatype SetString = SetString(kind: StringKind, offset: byte, bytes: seq<byte>)

  function NewSetString(kind: StringKind, offset: byte, bytes: seq<byte>): (r: Result<SetString, DcmiError>)
    ensures r.Ok? <==> ChunkOk(offset, |bytes|)
  {
    if |bytes| > STRING_CHUNK || (offset as int) + |bytes| > MAX_STRING || (bytes == [] && offset != 0)
    then Err(Bounds)
    else Ok(SetString(kind, offset, bytes))
  }

  /** What a chunk leaves of the string: everything before it, and itself at the end. */
  function Placed(text: seq<byte>, offset: nat, bytes: seq<byte>): seq<byte> {
    text[..Min(offset, |text|)] + bytes
  }

  /**
   The controller with one DCMI string. Any request may fail at any time. An `honest` one tells what it stores,
   and stores a chunk at its offset, ending the string with it; a chunk whose request fails may have been
   stored. A `faultless` one never fails.
   */
  class DcmiTarget {
    const honest: bool
    const faultless: bool
    var text: seq<byte>
    ghost var requests: nat

    ghost predicate Valid()
      reads this`text
    {
      (faultless ==> honest) && (honest ==> |text| <= MAX_STRING)
    }

    constructor (honest: bool, faultless: bool, text: seq<byte>)
      requires (faultless ==> honest) && |text| <= MAX_STRING
      ensures Valid() && this.text == text && requests == 0 && this.honest == honest && this.faultless == faultless
    {
      this.honest, this.faultless, this.text, requests := honest, faultless, text, 0;
    }

    method Get(request: GetString) returns (reply: Reply<StringPage>)
      requires Valid() && ChunkOk(request.offset, request.length)
      modifies this`requests
      ensures Valid() && requests == old(requests) + 1
      ensures honest && reply.Success? ==>
                && reply.value.total == |text|
                && reply.value.bytes == text[Min(request.offset, |text|)..Min(request.offset + request.length, |text|)]
      ensures faultless ==> reply.Success?
    {
      requests := requests + 1;
      reply := *;
      if faultless || (honest && reply.Success?) {
        reply := Success(StringPage(|text|, text[Min(request.offset, |text|)..Min(request.offset + request.length, |text|)]));
      }
    }

    method Set(request: SetString) returns (failure: Option<IpmiError>)
      requires Valid() && ChunkOk(request.offset, |request.bytes|)
      modifies this`requests, this`text
      ensures Valid() && requests == old(requests) + 1
      ensures honest ==> text == Placed(old(text), request.offset, request.bytes) || (failure.Some? && text == old(text))
      ensures faultless ==> failure.None?
    {
      requests := requests + 1;
      var fails: bool := *;
      var stored: bool := *;
      failure := None;
      if fails && !faultless {
        var error: IpmiError := *;
        failure := Some(error);
      }
      if honest && (stored || failure.None?) {
        text := Placed(text, request.offset, request.bytes);
      }
    }
  }

  /** How many requests reading a string of `total` bytes takes. */
  function ReadRequests(kind: StringKind, total: nat): nat {
    1 + DivCeil(Max(total - (if kind.ControllerId? then 1 else 0), 0), STRING_CHUNK)
  }

  lemma AtMostFive(kind: StringKind, total: nat)
    requires total <= MAX_STRING
    ensures ReadRequests(kind, total) <= 5
  {
    var n := Max(total - (if kind.ControllerId? then 1 else 0), 0);
    DivCeilMonotone(n, 64, 16, 16);
    assert DivCeil(64, 16) == 1 + DivCeil(48, 16) && DivCeil(48, 16) == 1 + DivCeil(32, 16);
    assert DivCeil(32, 16) == 1 + DivCeil(16, 16) && DivCeil(16, 16) == 1 + DivCeil(0, 16);
  }

  /**
   Read the whole string. Against any controller there are at most five requests, all of them well-formed; an
   honest one is believed exactly.
   */
  method ReadString(target: DcmiTarget, kind: StringKind) returns (r: Result<seq<byte>, PageError>)
    requires target.Valid()
    modifies target`requests
    ensures target.Valid() && target.requests <= old(target.requests) + 5
    ensures r.Ok? ==> |r.value| <= MAX_STRING
    ensures r.Ok? ==> target.requests == old(target.requests) + ReadRequests(kind, |r.value|)
    ensures r.Ok? && target.honest ==> r.value == target.text
    ensures target.faultless ==> r.Ok?
  {
    var initialLength := if kind.ControllerId? then 1 else 0;
    var first := target.Get(NewGetString(kind, 0, initialLength).value);
    if first.Failure? { return Err(Transport(first.error)); }
    var total := first.value.total;
    if total > MAX_STRING || |first.value.bytes| != Min(initialLength, total) { return Err(Protocol(Page)); }
    AtMostFive(kind, total);
    var bytes := first.value.bytes;
    while |bytes| < total
      invariant |bytes| <= total
      invariant target.requests + DivCeil(total - |bytes|, STRING_CHUNK) == old(target.requests) + ReadRequests(kind, total)
      invariant target.honest ==> total == |target.text| && bytes == target.text[..|bytes|]
    {
      var length := Min(total - |bytes|, STRING_CHUNK);
      var page := target.Get(NewGetString(kind, |bytes|, length).value);
      if page.Failure? { return Err(Transport(page.error)); }
      if page.value.total != total || |page.value.bytes| != length { return Err(Protocol(Page)); }
      bytes := bytes + page.value.bytes;
    }
    r := Ok(bytes);
  }

  /** The chunks before the failed one are stored, and that one may be. */
  predicate PartlyStored(before: seq<byte>, bytes: seq<byte>, after: seq<byte>, confirmed: nat) {
    && confirmed <= |bytes|
    && (|| after == (if confirmed == 0 then before else bytes[..confirmed])
        || after == bytes[..Min(confirmed + STRING_CHUNK, |bytes|)])
  }

  lemma ChunkPlaced(before: seq<byte>, bytes: seq<byte>, was: seq<byte>, confirmed: nat)
    requires confirmed < |bytes| && was == if confirmed == 0 then before else bytes[..confirmed]
    ensures var next := Min(confirmed + STRING_CHUNK, |bytes|);
            && Placed(was, confirmed, bytes[confirmed..next]) == bytes[..next]
            && PartlyStored(before, bytes, was, confirmed) && PartlyStored(before, bytes, bytes[..next], confirmed)
  {
    var next := Min(confirmed + STRING_CHUNK, |bytes|);
    assert was[..Min(confirmed, |was|)] == bytes[..confirmed];
    assert bytes[..confirmed] + bytes[confirmed..next] == bytes[..next];
  }

  /**
   Replace the string, in at most four chunks and without repeating any; an empty string takes one request. If
   a chunk fails, exactly the bytes reported as confirmed are known to be stored.
   */
  method WriteString(target: DcmiTarget, kind: StringKind, bytes: seq<byte>) returns (r: Result<(), StringWriteError>)
    requires target.Valid()
    modifies target`requests, target`text
    ensures target.Valid()
    ensures |bytes| > MAX_STRING <==> r == Err(Invalid(Bounds))
    ensures |bytes| > MAX_STRING ==> target.requests == old(target.requests) && target.text == old(target.text)
    ensures target.requests <= old(target.requests) + Max(DivCeil(|bytes|, STRING_CHUNK), 1)
    ensures r.Ok? && target.honest ==> target.text == bytes
    ensures r.Err? && r.error.Uncertain? && target.honest ==>
              PartlyStored(old(target.text), bytes, target.text, r.error.confirmedBytes)
    ensures target.faultless && |bytes| <= MAX_STRING ==> r.Ok?
  {
    if |bytes| > MAX_STRING { return Err(Invalid(Bounds)); }
    if bytes == [] {
      var failure := target.Set(NewSetString(kind, 0, []).value);
      return if failure.Some? then Err(Uncertain(0, failure.value)) else Ok(());
    }
    hide Placed, PartlyStored;
    var confirmed := 0;
    while confirmed < |bytes|
      invariant confirmed <= |bytes| && target.Valid()
      invariant target.requests + DivCeil(|bytes| - confirmed, STRING_CHUNK)
                == old(target.requests) + DivCeil(|bytes|, STRING_CHUNK)
      invariant target.honest ==> target.text == if confirmed == 0 then old(target.text) else bytes[..confirmed]
    {
      ghost var was := target.text;
      var chunk := bytes[confirmed..Min(confirmed + STRING_CHUNK, |bytes|)];
      var failure := target.Set(NewSetString(kind, confirmed, chunk).value);
      if target.honest {
        ChunkPlaced(old(target.text), bytes, was, confirmed);
      }
      if failure.Some? { return Err(Uncertain(confirmed, failure.value)); }
      confirmed := confirmed + |chunk|;
    }
    r := Ok(());
  }

  /** What was written is what is read, whatever was stored before. */
  method WriteThenRead(target: DcmiTarget, kind: StringKind, bytes: seq<byte>)
    returns (written: Result<(), StringWriteError>, r: Result<seq<byte>, PageError>)
    requires target.Valid() && target.honest && |bytes| <= MAX_STRING
    modifies target`requests, target`text
    ensures written.Ok? && r.Ok? ==> r.value == bytes
    ensures target.faultless ==> written.Ok? && r.Ok?
  {
    written := WriteString(target, kind, bytes);
    r := ReadString(target, kind);
  }

  // ----- Lists

  /** A page of a list: how long the list is, and some of its entries. */
  datatype ListPage<T> = ListPage(total: byte, entries: seq<T>)

  const MAX_PAGE: nat := 8

  /**
   A controller with a list that is read page by page. Entries are numbered from `base`; an `honest` one answers
   with at most eight entries from the number asked for on, at least one if there is one, and a `faultless`
   one always answers.
   */
  class ListTarget<T(0)> {
    const honest: bool
    const faultless: bool
    const base: nat
    const entries: seq<T>
    ghost var requests: nat

    constructor (honest: bool, faultless: bool, base: nat, entries: seq<T>)
      requires (faultless ==> honest) && |entries| <= 255
      ensures Valid() && this.entries == entries && this.base == base && requests == 0
    {
      this.honest, this.faultless, this.base, this.entries := honest, faultless, base, entries;
      requests := 0;
    }

    predicate Valid() { (faultless ==> honest) && |entries| <= 255 }

    /** An answer to a request for the entries from `number` on. */
    ghost predicate Truthful(number: nat, page: ListPage<T>) {
      && page.total == |entries|
      && (base <= number < base + |entries| ==>
            && 1 <= |page.entries| <= Min(MAX_PAGE, base + |entries| - number)
            && page.entries == entries[number - base..number - base + |page.entries|])
    }

    method Get(number: byte) returns (reply: Reply<ListPage<T>>)
      requires Valid()
      modifies this`requests
      ensures requests == old(requests) + 1
      ensures honest && reply.Success? ==> Truthful(number, reply.value)
      ensures faultless ==> reply.Success?
    {
      requests := requests + 1;
      reply := *;
      if honest && (faultless || reply.Success?) {
        var size: nat := *;
        if base <= number < base + |entries| {
          if !(1 <= size <= Min(MAX_PAGE, base + |entries| - number)) { size := 1; }
          reply := Success(ListPage(|entries|, entries[number - base..number - base + size]));
        } else {
          reply := Success(ListPage(|entries|, []));
        }
      }
    }
  }

  lemma TotalIsTold<T(0)>(target: ListTarget<T>, number: nat, page: ListPage<T>)
    requires target.Truthful(number, page)
    ensures page.total == |target.entries|
  {
  }

  lemma PageGoesOn<T(0)>(target: ListTarget<T>, got: nat, page: ListPage<T>)
    requires target.Valid() && target.Truthful(target.base + got, page) && got < |target.entries|
    ensures page.total == |target.entries| && 1 <= |page.entries| <= Min(MAX_PAGE, |target.entries| - got)
    ensures target.entries[..got] + page.entries == target.entries[..got + |page.entries|]
  {
    var n := |page.entries|;
    assert page.entries == target.entries[got..got + n];
    assert target.entries[..got + n] == target.entries[..got] + target.entries[got..got + n];
  }

  /**
   Read a whole list whose entries are numbered from `base`, which is one for temperatures and zero for sensor
   records. At most 256 requests are made, however small the pages, and their numbers fit a byte; an honest
   controller's list is returned whole and in order.
   */
  method ReadList<T(0)>(target: ListTarget<T>, base: nat) returns (r: Result<seq<T>, PageError>)
    requires target.Valid() && base <= 1
    modifies target`requests
    ensures target.requests <= old(target.requests) + 256
    ensures r.Ok? ==> |r.value| <= 255
    ensures r.Ok? && target.honest && target.base == base ==> r.value == target.entries
    ensures target.faultless && target.base == base ==> r.Ok?
  {
    var first := target.Get(0);
    if first.Failure? { return Err(Transport(first.error)); }
    if target.honest { TotalIsTold(target, 0, first.value); }
    var total := first.value.total;
    var entries: seq<T> := [];
    hide ListTarget.Truthful;
    while |entries| < total
      invariant |entries| <= total && target.requests <= old(target.requests) + 1 + |entries|
      invariant target.honest ==> total == |target.entries|
      invariant target.honest && target.base == base ==> entries == target.entries[..|entries|]
    {
      var page := target.Get(|entries| + base);
      if page.Failure? { return Err(Transport(page.error)); }
      if target.honest && target.base == base { PageGoesOn(target, |entries|, page.value); }
      var more := page.value.entries;
      if page.value.total != total || more == [] || |more| > MAX_PAGE || |more| > total - |entries| {
        return Err(Protocol(Page));
      }
      entries := entries + more;
    }
    r := Ok(entries);
  }
}
