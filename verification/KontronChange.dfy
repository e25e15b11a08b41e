/**
 Preparing a Kontron FRU change: same-length serial numbers or a manufacturing date are put into a copy
 of the image in place, and the checksums of the areas touched are made good.
 */
module KontronChange {
  import opened Ipmi
  import opened Checksums
  import opened FruImage

  datatype Area = Board | Product

  datatype PrepareError = SerialField(area: Area) | Inventory(error: ParseError) | MissingArea

  // ----- What an edit does to an image

  function Spliced(image: seq<byte>, at: nat, text: seq<byte>): (after: seq<byte>)
    requires at + |text| <= |image|
    ensures |after| == |image|
    ensures forall i | 0 <= i < |image| :: after[i] == if at <= i < at + |text| then text[i - at] else image[i]
  {
    image[..at] + text + image[at + |text|..]
  }

  /** The last byte of the area is the checksum of the others. */
  function Checksummed(image: seq<byte>, area: Range): (after: seq<byte>)
    requires RangeOk(area, |image|)
    ensures |after| == |image|
  {
    image[area.end - 1 := Checksum(image[area.start..area.end - 1])]
  }

  /** The position of the field that follows `skip` fields after position `pos`. */
  function FieldAt(image: seq<byte>, area: Range, pos: nat, skip: nat): (at: Option<nat>)
    requires RangeOk(area, |image|)
    ensures at.Some? ==> pos <= at.value < area.end - 1
    decreases skip
  {
    if pos >= area.end - 1 then None
    else if skip == 0 then Some(pos)
    else
      var next := pos + 1 + image[pos] % 64;
      if next >= area.end then None else FieldAt(image, area, next, skip - 1)
  }

  /** The board area has more in front of its fields than the product area; its serial number is the third field. */
  function FirstField(area: Range, skip: nat): nat {
    area.start + if skip == 2 then 6 else 3
  }

  /** Where the text of the field after `skip` fields starts, if it is eight-bit text of that length. */
  function TextAt(image: seq<byte>, area: Range, skip: nat, length: nat): (at: Option<nat>)
    requires RangeOk(area, |image|)
    ensures at.Some? ==> area.start + 4 <= at.value && at.value + length < area.end
  {
    var field := FieldAt(image, area, FirstField(area, skip), skip);
    if field.None? || image[field.value] / 64 != 3 || image[field.value] % 64 != length
       || field.value + 1 + length >= area.end
    then None
    else Some(field.value + 1)
  }

  function WithText(image: seq<byte>, area: Range, at: nat, text: seq<byte>): (after: seq<byte>)
    requires RangeOk(area, |image|) && at + |text| <= |image|
    ensures |after| == |image|
  {
    Checksummed(Spliced(image, at, text), area)
  }

  lemma ChecksummedSums(image: seq<byte>, area: Range)
    requires RangeOk(area, |image|)
    ensures Sum(Slice(Checksummed(image, area), area)) % 0x100 == 0
  {
    var after := Checksummed(image, area);
    var contents := image[area.start..area.end - 1];
    assert Slice(after, area) == contents + [after[area.end - 1]];
    ChecksumIsUnique(contents, after[area.end - 1]);
  }

  /** Text inside an area touches that text and the checksum, and nothing else. */
  lemma EditIsLocal(image: seq<byte>, area: Range, at: nat, text: seq<byte>)
    requires RangeOk(area, |image|) && area.start <= at && at + |text| < area.end
    ensures var after := WithText(image, area, at, text);
            && (forall i | 0 <= i < |image| && !(at <= i < at + |text|) && i != area.end - 1 :: after[i] == image[i])
            && after[at..at + |text|] == text
            && Sum(Slice(after, area)) % 0x100 == 0
  {
    ChecksummedSums(Spliced(image, at, text), area);
  }

  lemma TextStays(image: seq<byte>, after: seq<byte>, area: Range, skip: nat, length: nat)
    requires RangeOk(area, |image|) && |after| == |image|
    requires TextAt(image, area, skip, length).Some?
    requires forall i | area.start <= i < TextAt(image, area, skip, length).value :: after[i] == image[i]
    ensures TextAt(after, area, skip, length) == TextAt(image, area, skip, length)
  {
    FieldReadsOnlyTheArea(image, after, area, FirstField(area, skip), skip);
  }

  lemma EditSparesOthers(image: seq<byte>, area: Range, at: nat, text: seq<byte>, other: Range)
    requires RangeOk(area, |image|) && RangeOk(other, |image|) && area.start <= at && at + |text| < area.end
    requires area.end <= other.start || other.end <= area.start
    ensures var after := WithText(image, area, at, text);
            && Slice(after, other) == Slice(image, other)
            && forall i | other.start <= i < other.end :: after[i] == image[i]
  {
    hide WithText;
    EditIsLocal(image, area, at, text);
  }

  /** Only the bytes of the area up to the field decide where it is. */
  lemma {:induction false} FieldReadsOnlyTheArea(image: seq<byte>, after: seq<byte>, area: Range, pos: nat, skip: nat)
    requires RangeOk(area, |image|) && |after| == |image| && area.start <= pos
    requires FieldAt(image, area, pos, skip).Some?
    requires forall i | area.start <= i <= FieldAt(image, area, pos, skip).value :: after[i] == image[i]
    ensures FieldAt(after, area, pos, skip) == FieldAt(image, area, pos, skip)
    decreases skip
  {
    if skip > 0 {
      FieldReadsOnlyTheArea(image, after, area, pos + 1 + image[pos] % 64, skip - 1);
    }
  }

  // ----- The edits

  method SetChecksum(image: array<byte>, area: Range)
    requires RangeOk(area, image.Length)
    modifies image
    ensures image[..] == Checksummed(old(image[..]), area)
  {
    image[area.end - 1] := Checksum(image[area.start..area.end - 1]);
    assert old(image[..])[area.start..area.end - 1] == old(image[area.start..area.end - 1]);
  }

  method CopyInto(image: array<byte>, at: nat, text: seq<byte>)
    requires at + |text| <= image.Length
    modifies image
    ensures image[..] == Spliced(old(image[..]), at, text)
  {
    for k := 0 to |text|
      invariant image[..] == Spliced(old(image[..]), at, text[..k])
    {
      image[at + k] := text[k];
    }
    assert text[..|text|] == text;
  }

  /** Walk over `skip` fields to the one wanted. */
  method FindText(image: array<byte>, area: Range, skip: nat, length: nat) returns (at: Option<nat>)
    requires RangeOk(area, image.Length)
    ensures at == TextAt(image[..], area, skip, length)
  {
    var pos := FirstField(area, skip);
    var skipped := 0;
    while skipped < skip
      invariant 0 <= skipped <= skip && pos >= 0
      invariant FieldAt(image[..], area, pos, skip - skipped) == FieldAt(image[..], area, FirstField(area, skip), skip)
    {
      if pos >= area.end - 1 { return None; }
      pos := pos + 1 + image[pos] % 64;
      skipped := skipped + 1;
      if pos >= area.end { return None; }
    }
    if pos >= area.end - 1 { return None; }
    if image[pos] / 64 != 3 || image[pos] % 64 != length || pos + 1 + length >= area.end { return None; }
    at := Some(pos + 1);
  }

  /** Replace the text of the field that follows `skip` fields, if the serial number fits it exactly. */
  method ReplaceSerial(image: array<byte>, area: Range, skip: nat, serial: seq<byte>) returns (done: bool)
    requires RangeOk(area, image.Length)
    modifies image
    ensures done == TextAt(old(image[..]), area, skip, |serial|).Some?
    ensures image[..] == if done
                         then WithText(old(image[..]), area, TextAt(old(image[..]), area, skip, |serial|).value, serial)
                         else old(image[..])
  {
    hide FieldAt, TextAt, Checksummed, Spliced;
    var at := FindText(image, area, skip, |serial|);
    if at.None? { return false; }
    CopyInto(image, at.value, serial);
    SetChecksum(image, area);
    done := true;
  }

  // ----- Prepared changes

  /** A changed image keeps its header, its areas and their lengths. */
  predicate KeepsLayout(image: seq<byte>, after: seq<byte>, areas: Areas)
    requires RangeOk(areas.board, |image|) && RangeOk(areas.product, |image|)
  {
    && |after| == |image|
    && (forall i | 0 <= i < HEADER_SIZE :: after[i] == image[i])
    && (forall i | areas.board.start <= i < areas.board.start + 3 :: after[i] == image[i])
    && (forall i | areas.product.start <= i < areas.product.start + 3 :: after[i] == image[i])
    && Sum(Slice(after, areas.board)) % 0x100 == 0 && Sum(Slice(after, areas.product)) % 0x100 == 0
  }

  lemma {:induction false} LimitStays(image: seq<byte>, after: seq<byte>, start: nat, slots: nat)
    requires slots <= 5 && |image| >= HEADER_SIZE && |after| == |image|
    requires forall i | 0 <= i < HEADER_SIZE :: after[i] == image[i]
    ensures Limit(after, start, slots) == Limit(image, start, slots)
  {
    if slots > 0 {
      LimitStays(image, after, start, slots - 1);
    }
  }

  lemma HeaderStays(image: seq<byte>, after: seq<byte>)
    requires |image| >= HEADER_SIZE && |after| == |image|
    requires forall i | 0 <= i < HEADER_SIZE :: after[i] == image[i]
    ensures HeaderOk(after) == HeaderOk(image)
    ensures SlotStart(after, BOARD_SLOT) == SlotStart(image, BOARD_SLOT)
    ensures SlotStart(after, PRODUCT_SLOT) == SlotStart(image, PRODUCT_SLOT)
  {
    hide Sum;
    assert after[..HEADER_SIZE] == image[..HEADER_SIZE];
    assert forall s | 0 <= s < 5 :: SlotStart(after, s) == SlotStart(image, s);
  }

  /** Such an image parses, except perhaps for what is in its fields, and its areas are where they were. */
  lemma KeptLayoutParses(image: seq<byte>, after: seq<byte>, areas: Areas, rest: seq<byte> -> bool)
    requires FindAreas(image, rest) == Ok(Some(areas))
    requires RangeOk(areas.board, |image|) && RangeOk(areas.product, |image|) && KeepsLayout(image, after, areas)
    ensures FindAreas(after, rest) == if rest(after) then Ok(Some(areas)) else Err(Field)
  {
    hide Sum, Limit;
    HeaderStays(image, after);
    LimitStays(image, after, areas.board.start, 5);
    LimitStays(image, after, areas.product.start, 5);
    hide HeaderOk;
  }

  /**
   The proposal: the serial number stands in both areas at `b` and `p`; these texts and the two checksums are
   all that changed.
   */
  predicate IsSerialChange(image: seq<byte>, after: seq<byte>, areas: Areas, serial: seq<byte>, b: nat, p: nat)
    requires RangeOk(areas.board, |image|) && RangeOk(areas.product, |image|)
  {
    && KeepsLayout(image, after, areas)
    && TextAt(image, areas.board, 2, |serial|) == Some(b) == TextAt(after, areas.board, 2, |serial|)
    && TextAt(image, areas.product, 4, |serial|) == Some(p) == TextAt(after, areas.product, 4, |serial|)
    && after[b..b + |serial|] == serial == after[p..p + |serial|]
    && (forall i | 0 <= i < |image| && after[i] != image[i] ::
          b <= i < b + |serial| || p <= i < p + |serial| || i == areas.board.end - 1 || i == areas.product.end - 1)
  }

  lemma SerialChangeIsProper(image: seq<byte>, areas: Areas, serial: seq<byte>, b: nat, p: nat)
    requires RangeOk(areas.board, |image|) && RangeOk(areas.product, |image|) && Apart(areas)
    requires TextAt(image, areas.board, 2, |serial|) == Some(b)
    requires TextAt(image, areas.product, 4, |serial|) == Some(p)
    ensures var one := WithText(image, areas.board, b, serial);
            && TextAt(one, areas.product, 4, |serial|) == Some(p)
            && IsSerialChange(image, WithText(one, areas.product, p, serial), areas, serial, b, p)
  {
    hide Sum, WithText, FieldAt, TextAt;
    var one := WithText(image, areas.board, b, serial);
    var two := WithText(one, areas.product, p, serial);
    TextIsInside(image, areas.board, 2, |serial|);
    TextIsInside(image, areas.product, 4, |serial|);
    EditIsLocal(image, areas.board, b, serial);
    EditIsLocal(one, areas.product, p, serial);
    EditSparesOthers(image, areas.board, b, serial, areas.product);
    EditSparesOthers(one, areas.product, p, serial, areas.board);
    SameBytesSameText(image, one, two, areas, |serial|);
    assert forall i | b <= i < b + |serial| :: two[i] == one[i];
    assert two[b..b + |serial|] == one[b..b + |serial|];
  }

  lemma TextIsInside(image: seq<byte>, area: Range, skip: nat, length: nat)
    requires RangeOk(area, |image|) && TextAt(image, area, skip, length).Some?
    ensures area.start + 4 <= TextAt(image, area, skip, length).value
    ensures TextAt(image, area, skip, length).value + length < area.end
  {
  }

  lemma SameBytesSameText(image: seq<byte>, one: seq<byte>, two: seq<byte>, areas: Areas, length: nat)
    requires |one| == |two| == |image| && RangeOk(areas.board, |image|) && RangeOk(areas.product, |image|)
    requires TextAt(image, areas.board, 2, length).Some? && TextAt(image, areas.product, 4, length).Some?
    requires forall i | areas.board.start <= i < TextAt(image, areas.board, 2, length).value :: two[i] == image[i]
    requires forall i | areas.product.start <= i < TextAt(image, areas.product, 4, length).value ::
               one[i] == image[i] == two[i]
    ensures TextAt(two, areas.board, 2, length) == TextAt(image, areas.board, 2, length)
    ensures TextAt(one, areas.product, 4, length) == TextAt(image, areas.product, 4, length)
    ensures TextAt(two, areas.product, 4, length) == TextAt(image, areas.product, 4, length)
  {
    TextStays(image, two, areas.board, 2, length);
    TextStays(image, one, areas.product, 4, length);
    TextStays(image, two, areas.product, 4, length);
  }

  /**
   Put the controller's own serial number into the board and product areas of a copy of the image. It fails
   exactly if a field does not fit or, in the end, the fields do not parse.
   */
  method PrepareSerial(image: seq<byte>, areas: Areas, serial: seq<byte>, rest: seq<byte> -> bool)
    returns (r: Result<seq<byte>, PrepareError>)
    requires FindAreas(image, rest) == Ok(Some(areas))
    ensures RangeOk(areas.board, |image|) && RangeOk(areas.product, |image|)
    ensures r.Ok? ==> FindAreas(r.value, rest) == Ok(Some(areas))
    ensures r.Ok? ==> exists b, p :: IsSerialChange(image, r.value, areas, serial, b, p)
    ensures r == Err(SerialField(Board)) <==> TextAt(image, areas.board, 2, |serial|).None?
    ensures r == Err(SerialField(Product)) <==>
            TextAt(image, areas.board, 2, |serial|).Some? && TextAt(image, areas.product, 4, |serial|).None?
  {
    hide Parses, IsSerialChange, KeepsLayout, WithText, FieldAt;
    AreasAreSound(image, rest);
    var copy := new byte[|image|](i requires 0 <= i < |image| => image[i]);
    assert copy[..] == image;
    var done := ReplaceSerial(copy, areas.board, 2, serial);
    if !done { return Err(SerialField(Board)); }
    ghost var b := TextAt(image, areas.board, 2, |serial|).value;
    ghost var one := copy[..];
    EditIsLocal(image, areas.board, b, serial);
    if TextAt(image, areas.product, 4, |serial|).Some? {
      TextStays(image, one, areas.product, 4, |serial|);
    } else if TextAt(one, areas.product, 4, |serial|).Some? {
      TextStays(one, image, areas.product, 4, |serial|);
    }
    done := ReplaceSerial(copy, areas.product, 4, serial);
    if !done { return Err(SerialField(Product)); }
    ghost var p := TextAt(image, areas.product, 4, |serial|).value;
    SerialChangeIsProper(image, areas, serial, b, p);
    LayoutOfSerialChange(image, copy[..], areas, serial, b, p, rest);
    var parsed := FindAreas(copy[..], rest);
    if parsed.Err? { return Err(Inventory(parsed.error)); }
    r := Ok(copy[..]);
  }

  lemma LayoutOfSerialChange(image: seq<byte>, after: seq<byte>, areas: Areas, serial: seq<byte>, b: nat, p: nat,
                             rest: seq<byte> -> bool)
    requires FindAreas(image, rest) == Ok(Some(areas))
    requires RangeOk(areas.board, |image|) && RangeOk(areas.product, |image|)
    requires IsSerialChange(image, after, areas, serial, b, p)
    ensures FindAreas(after, rest) == if rest(after) then Ok(Some(areas)) else Err(Field)
  {
    KeptLayoutParses(image, after, areas, rest);
  }

  /** Put the controller's own manufacturing date into the board area of a copy of the image. */
  method PrepareDate(image: seq<byte>, areas: Areas, date: seq<byte>, rest: seq<byte> -> bool)
    returns (r: Result<seq<byte>, PrepareError>)
    requires FindAreas(image, rest) == Ok(Some(areas)) && |date| == 3
    ensures RangeOk(areas.board, |image|) && RangeOk(areas.product, |image|)
    ensures r.Ok? ==>
              && FindAreas(r.value, rest) == Ok(Some(areas)) && KeepsLayout(image, r.value, areas)
              && r.value[areas.board.start + 3..areas.board.start + 6] == date
              && (forall i | 0 <= i < |image| && r.value[i] != image[i] ::
                    areas.board.start + 3 <= i < areas.board.start + 6 || i == areas.board.end - 1)
    ensures r.Err? ==> r.error == Inventory(Field)
  {
    hide *;
    AreasAreSound(image, rest);
    AreaIsDeep(areas.board, |image|);
    var copy := new byte[|image|](i requires 0 <= i < |image| => image[i]);
    assert copy[..] == image;
    CopyInto(copy, areas.board.start + 3, date);
    SetChecksum(copy, areas.board);
    WithTextMeans(image, areas.board, areas.board.start + 3, date);
    DateChangeIsProper(image, areas, date);
    KeptLayoutParses(image, copy[..], areas, rest);
    var parsed := FindAreas(copy[..], rest);
    if parsed.Err? { return Err(Inventory(parsed.error)); }
    r := Ok(copy[..]);
  }

  lemma AreaIsDeep(area: Range, size: nat)
    requires RangeOk(area, size)
    ensures HEADER_SIZE <= area.start && area.start + 8 <= area.end <= size
  {
  }

  lemma DateChangeIsProper(image: seq<byte>, areas: Areas, date: seq<byte>)
    requires RangeOk(areas.board, |image|) && RangeOk(areas.product, |image|) && Apart(areas) && |date| == 3
    requires Sum(Slice(image, areas.product)) % 0x100 == 0
    ensures var after := WithText(image, areas.board, areas.board.start + 3, date);
            && KeepsLayout(image, after, areas)
            && after[areas.board.start + 3..areas.board.start + 6] == date
            && (forall i | 0 <= i < |image| && after[i] != image[i] ::
                  areas.board.start + 3 <= i < areas.board.start + 6 || i == areas.board.end - 1)
  {
    hide Sum, WithText;
    EditIsLocal(image, areas.board, areas.board.start + 3, date);
    var after := WithText(image, areas.board, areas.board.start + 3, date);
    assert Slice(after, areas.product) == Slice(image, areas.product);
  }

  lemma WithTextMeans(image: seq<byte>, area: Range, at: nat, text: seq<byte>)
    requires RangeOk(area, |image|) && at + |text| <= |image|
    ensures WithText(image, area, at, text) == Checksummed(Spliced(image, at, text), area)
  {
  }
}
