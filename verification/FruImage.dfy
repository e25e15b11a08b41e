/**
 The layout of a FRU inventory image: a checked common header, and areas that are measured in
 units of eight bytes, sum to zero and do not run into each other.
 */
module FruImage {
  import opened Ipmi
  import opened Checksums

  datatype ParseError = Truncated | Version | BadChecksum | Layout | Field

  /** The bytes from `start` up to, but not including, `end`. */
  datatype Range = Range(start: nat, end: nat) {
    predicate Has(i: int) { start <= i < end }
  }

  const HEADER_SIZE: nat := 8
  const BOARD_SLOT: nat := 2
  const PRODUCT_SLOT: nat := 3

  /** Offsets and lengths count units of eight bytes. */
  function Units(b: byte): nat { 8 * (b as int) }

  /** Where the area of a header slot starts, if it is there. */
  function SlotStart(image: seq<byte>, slot: nat): Option<nat>
    requires slot < 5 && |image| >= HEADER_SIZE
  {
    if image[1 + slot] == 0 then None else Some(Units(image[1 + slot]))
  }

  predicate HeaderOk(image: seq<byte>) {
    && |image| >= HEADER_SIZE && image[0] == 1 && image[6] == 0 && Sum(image[..HEADER_SIZE]) % 0x100 == 0
    && (forall s | 0 <= s < 5 && SlotStart(image, s).Some? :: SlotStart(image, s).value < |image|)
    && (forall s, t | 0 <= s < t < 5 && SlotStart(image, s).Some? :: SlotStart(image, s) != SlotStart(image, t))
  }

  /** The nearest start after `start` among the first `slots` slots, or the end of the image. */
  function Limit(image: seq<byte>, start: nat, slots: nat): nat
    requires slots <= 5 && |image| >= HEADER_SIZE
  {
    if slots == 0 then |image|
    else
      var rest, here := Limit(image, start, slots - 1), SlotStart(image, slots - 1);
      if here.Some? && here.value > start && here.value < rest then here.value else rest
  }

  lemma {:induction false} LimitIsNearest(image: seq<byte>, start: nat, slots: nat, slot: nat)
    requires slot < slots <= 5 && |image| >= HEADER_SIZE
    requires SlotStart(image, slot).Some? && SlotStart(image, slot).value > start
    ensures Limit(image, start, slots) <= SlotStart(image, slot).value
  {
    if slot < slots - 1 {
      LimitIsNearest(image, start, slots - 1, slot);
    }
  }

  /** An area of the image, header byte, length byte, contents, checksum. */
  predicate AreaOk(image: seq<byte>, start: nat, limit: nat) {
    && start + 2 <= |image| && image[start] == 1 && image[start + 1] >= 1
    && start + Units(image[start + 1]) <= limit <= |image|
    && Sum(image[start..start + Units(image[start + 1])]) % 0x100 == 0
  }

  /** The area that starts at `start`, from its length byte. */
  function AreaRange(image: seq<byte>, start: nat): Result<Range, ParseError> {
    if start + 1 >= |image| then Err(Truncated)
    else
      var end := start + Units(image[start + 1]);
      if end > |image| || end < start + 8 then Err(Layout) else Ok(Range(start, end))
  }

  predicate SlotOk(image: seq<byte>, slot: nat)
    requires slot < 5 && |image| >= HEADER_SIZE
  {
    var start := SlotStart(image, slot);
    start.Some? ==> AreaOk(image, start.value, Limit(image, start.value, 5))
  }

  /** The image parses. What is inside the fields and in the other areas is left to `rest`. */
  predicate Parses(image: seq<byte>, rest: seq<byte> -> bool) {
    HeaderOk(image) && SlotOk(image, BOARD_SLOT) && SlotOk(image, PRODUCT_SLOT) && rest(image)
  }

  /** Where the board and product areas are. */
  datatype Areas = Areas(board: Range, product: Range)

  /** The two areas of a parsed image, unless one of them is missing. */
  function FindAreas(image: seq<byte>, rest: seq<byte> -> bool): Result<Option<Areas>, ParseError> {
    if !Parses(image, rest) then Err(Field)
    else if SlotStart(image, BOARD_SLOT).None? || SlotStart(image, PRODUCT_SLOT).None? then Ok(None)
    else
      var board := AreaRange(image, SlotStart(image, BOARD_SLOT).value);
      var product := AreaRange(image, SlotStart(image, PRODUCT_SLOT).value);
      if board.Err? then Err(board.error)
      else if product.Err? then Err(product.error)
      else Ok(Some(Areas(board.value, product.value)))
  }

  function Slice(image: seq<byte>, range: Range): seq<byte>
    requires range.start <= range.end <= |image|
  {
    image[range.start..range.end]
  }

  /** A whole number of units, behind the header and inside the image. */
  predicate RangeOk(range: Range, size: nat) {
    HEADER_SIZE <= range.start && range.start + 8 <= range.end <= size && range.start % 8 == 0 && range.end % 8 == 0
  }

  predicate Apart(areas: Areas) {
    areas.board.end <= areas.product.start || areas.product.end <= areas.board.start
  }

  /** The areas of a parsed image lie inside it, apart from each other, and each sums to zero. */
  lemma AreasAreSound(image: seq<byte>, rest: seq<byte> -> bool)
    requires FindAreas(image, rest).Ok? && FindAreas(image, rest).value.Some?
    ensures var areas := FindAreas(image, rest).value.value;
            && RangeOk(areas.board, |image|) && RangeOk(areas.product, |image|) && Apart(areas)
            && Sum(Slice(image, areas.board)) % 0x100 == 0 && Sum(Slice(image, areas.product)) % 0x100 == 0
  {
    hide Sum;
    var board, product := SlotStart(image, BOARD_SLOT).value, SlotStart(image, PRODUCT_SLOT).value;
    assert SlotStart(image, BOARD_SLOT) != SlotStart(image, PRODUCT_SLOT);
    if board < product {
      LimitIsNearest(image, board, 5, PRODUCT_SLOT);
    } else {
      LimitIsNearest(image, product, 5, BOARD_SLOT);
    }
  }

  /** An image that parses never fails for an area that does not fit. */
  lemma ParsedAreasAreFound(image: seq<byte>, rest: seq<byte> -> bool)
    ensures FindAreas(image, rest).Err? <==> !Parses(image, rest)
  {
    hide Sum;
  }
}
