/**
  The `IDCard` facade: one identification number whose validity is decided
  once, at construction, and accessors that are only defined on a valid
  card. An accessor called on an invalid card yields the
  `InvalidIdNumber` error carrying the number, where the source throws
  `InvalidIDNumberException`.

  The region table and the list of known fabricated numbers are parameters
  instead of lazily loaded process-wide arrays.
*/
module IdCards {
  import Checksum
  import Region

  datatype Error = InvalidIdNumber(idNumber: string)

  datatype Result<+T> = Ok(value: T) | Err(error: Error)

  datatype Card = Card(idNumber: string, isValid: bool)

  /** A card as the constructor leaves it: the flag is the verdict of the checksum rule. */
  type IdCard = c: Card | c.isValid == Checksum.CheckIdNumber(c.idNumber)
    witness Card("", false)

  /** `new IDCard($id_number)`: never fails, fixes `is_valid` once. */
  function NewIdCard(idNumber: string): (card: IdCard)
    ensures card.idNumber == idNumber
    ensures card.isValid <==> Checksum.Iso7064Valid(idNumber)
  {
    Checksum.CheckIdNumberIsIso7064(idNumber);
    Card(idNumber, Checksum.CheckIdNumber(idNumber))
  }

  /** `isValid()`. */
  function IsValid(card: IdCard): (valid: bool)
    ensures valid ==> |card.idNumber| == 18
    ensures valid <==> Checksum.Iso7064Valid(card.idNumber)
  {
    Checksum.CheckIdNumberIsIso7064(card.idNumber);
    card.isValid
  }

  /** `getIdNumber()`: the constructor's argument, unchanged. */
  function GetIdNumber(card: IdCard): string {
    card.idNumber
  }

  /** `mustValid()`: the gate every derived accessor passes first. */
  function MustValid(card: IdCard): (r: Result<()>)
    ensures r.Ok? <==> card.isValid
    ensures r.Err? ==> r.error == InvalidIdNumber(card.idNumber)
  {
    if card.isValid then Ok(()) else Err(InvalidIdNumber(card.idNumber))
  }

  /** `getRegionCode()`: the leading six digits of a valid number. */
  function GetRegionCode(card: IdCard): (r: Result<string>)
    ensures r.Ok? <==> card.isValid
    ensures r.Err? ==> r.error == InvalidIdNumber(card.idNumber)
    ensures r.Ok? ==> Region.IsDigitCode(r.value) && r.value <= card.idNumber
  {
    match MustValid(card)
    case Err(e) => Err(e)
    case Ok(_) => Ok(card.idNumber[..6])
  }

  /** `getRegionName()`: the composed name of the region code. */
  function GetRegionName(table: Region.RegionTable, card: IdCard): (r: Result<string>)
    ensures r.Ok? <==> card.isValid
    ensures r.Err? ==> r.error == InvalidIdNumber(card.idNumber)
    ensures r.Ok? ==> Region.TransformRegionName(table, card.idNumber[..6]) == r.value
  {
    match GetRegionCode(card)
    case Err(e) => Err(e)
    case Ok(code) => Ok(Region.TransformRegionName(table, code))
  }

  /** `isFakeRegion()`: the region code does not exist in the table. */
  function IsFakeRegion(table: Region.RegionTable, card: IdCard): (r: Result<bool>)
    ensures r.Ok? <==> card.isValid
    ensures r.Err? ==> r.error == InvalidIdNumber(card.idNumber)
    ensures r.Ok? ==> (r.value <==> !Region.IsRegionExists(table, card.idNumber[..6]))
  {
    match GetRegionCode(card)
    case Err(e) => Err(e)
    case Ok(code) => Ok(!Region.IsRegionExists(table, code))
  }

  /** The birthday field `YYYYMMDD` that `getBirthdayTimestamp()` hands to the date parser. */
  function GetBirthday(card: IdCard): (r: Result<string>)
    ensures r.Ok? <==> card.isValid
    ensures r.Err? ==> r.error == InvalidIdNumber(card.idNumber)
    ensures r.Ok? ==> r.value == card.idNumber[6..14]
    ensures r.Ok? ==> |r.value| == 8 && forall i :: 0 <= i < 8 ==> Checksum.IsDigit(r.value[i])
  {
    match MustValid(card)
    case Err(e) => Err(e)
    case Ok(_) => Ok(card.idNumber[6..14])
  }

  /** `isFakeIdNumber()`: the number is on the list of known fabricated numbers. */
  function IsFakeIdNumber(fakes: seq<string>, card: IdCard): (r: Result<bool>)
    ensures r.Ok? <==> card.isValid
    ensures r.Err? ==> r.error == InvalidIdNumber(card.idNumber)
    ensures r.Ok? ==> (r.value <==> exists i :: 0 <= i < |fakes| && fakes[i] == card.idNumber)
  {
    match MustValid(card)
    case Err(e) => Err(e)
    case Ok(_) => Ok(card.idNumber in fakes)
  }

  /** Round trip: the card keeps the number it was built from. */
  lemma IdNumberRoundTrip(idNumber: string)
    ensures GetIdNumber(NewIdCard(idNumber)) == idNumber
  {
  }

  /** On an invalid card every gated accessor yields the same error, whatever the tables. */
  lemma InvalidCardGated(table: Region.RegionTable, fakes: seq<string>, card: IdCard)
    requires !IsValid(card)
    ensures GetRegionCode(card) == Err(InvalidIdNumber(card.idNumber))
    ensures GetRegionName(table, card) == Err(InvalidIdNumber(card.idNumber))
    ensures IsFakeRegion(table, card) == Err(InvalidIdNumber(card.idNumber))
    ensures GetBirthday(card) == Err(InvalidIdNumber(card.idNumber))
    ensures IsFakeIdNumber(fakes, card) == Err(InvalidIdNumber(card.idNumber))
  {
  }

  /** The region code, the birthday and the rest of a valid number put back
      together give the number. */
  lemma FieldsReassemble(card: IdCard)
    requires IsValid(card)
    ensures GetRegionCode(card).value + GetBirthday(card).value + card.idNumber[14..] == card.idNumber
  {
    var s := card.idNumber;
    assert s[..6] + s[6..14] + s[14..] == s;
  }

  /** The verdict depends only on which numbers are listed: reordering the
      list or repeating entries changes nothing. */
  lemma FakeIdNumberIgnoresOrderAndDuplicates(fakes: seq<string>, other: seq<string>, card: IdCard)
    requires forall f :: f in fakes <==> f in other
    ensures IsFakeIdNumber(fakes, card) == IsFakeIdNumber(other, card)
  {
  }

  /** Listing a valid card's number makes it fake; removing every copy of it
      from the list makes it genuine, whatever else the list holds. */
  lemma FakeIdNumberListEdits(fakes: seq<string>, card: IdCard)
    requires IsValid(card)
    ensures IsFakeIdNumber(fakes + [card.idNumber], card) == Ok(true)
    ensures IsFakeIdNumber(Without(fakes, card.idNumber), card) == Ok(false)
  {
    WithoutRemoves(fakes, card.idNumber);
  }

  /** The list with every copy of `x` removed. */
  function Without(fakes: seq<string>, x: string): seq<string> {
    if |fakes| == 0 then []
    else (if fakes[0] == x then [] else [fakes[0]]) + Without(fakes[1..], x)
  }

  lemma {:induction false} WithoutRemoves(fakes: seq<string>, x: string)
    ensures x !in Without(fakes, x)
    ensures forall f :: f in fakes && f != x ==> f in Without(fakes, x)
  {
    if |fakes| > 0 {
      WithoutRemoves(fakes[1..], x);
      assert forall f :: f in fakes && f != fakes[0] ==> f in fakes[1..];
    }
  }

  /** The standard test vector: valid, region 110105, born 19491231, and not
      a fake region under any table that lists 110105. */
  lemma TestVectorCard(table: Region.RegionTable)
    ensures NewIdCard("11010519491231002X").isValid
    ensures GetRegionCode(NewIdCard("11010519491231002X")) == Ok("110105")
    ensures GetBirthday(NewIdCard("11010519491231002X")) == Ok("19491231")
    ensures "110105" in table ==> IsFakeRegion(table, NewIdCard("11010519491231002X")) == Ok(false)
  {
    Checksum.TestVector('X');
    var s := "11010519491231002X";
    assert s[0] == '1' && s[1] == '1' && s[2] == '0' && s[3] == '1' && s[4] == '0' && s[5] == '5';
    assert s[6] == '1' && s[7] == '9' && s[8] == '4' && s[9] == '9';
    assert s[10] == '1' && s[11] == '2' && s[12] == '3' && s[13] == '1';
    assert s[..6] == "110105";
    assert s[6..14] == "19491231";
  }
}
