/** The status decoder of `bafs_error.h`: which text it picks. */
module Status {
  import opened Words

  datatype Text =
    | Generic(i: nat)
    | GenericNvm(i: nat)
    | Specific(i: nat)
    | SpecificNvm(i: nat)
    | VendorOrUndefined
    | Media
    | UnknownType
    | Success
    | Unknown

  /** `print_error` */
  function PrintError(sct: nat, sc: nat): Text {
    if sct == 0 then
      if sc < 0x23 then Generic(sc)
      else if 0x7f < sc < 0x85 then GenericNvm(sc - 0x80)
      else VendorOrUndefined
    else if sct == 1 then
      if sc < 0x26 then Specific(sc)
      else if 0x7f < sc < 0x83 then SpecificNvm(sc - 0x80)
      else VendorOrUndefined
    else if sct == 2 then Media
    else UnknownType
  }

  /** `bafs_error` once it has taken the status field apart. */
  function Pick(sct: nat, sc: nat, status: nat): Text {
    if sct != 0 || sc != 0 then PrintError(sct, sc)
    else if status / 2 == 0 then Success
    else Unknown
  }

  /** `bafs_error`, on the status field that the poll passes it: without the phase tag. */
  function BafsError(status: nat): Text {
    Pick(StatusCodeType(status), StatusCode(status), status)
  }

  lemma ZeroCodes(upper: nat)
    requires upper < 16
    ensures PackStatus(0, 0, upper) / 2 == upper * 0x400
  {
  }

  /** For every completion a device can post, the text that the decoder picks, by the code
      type and code the device put there. Generic codes up to 22h and 80h to 84h, and
      command specific ones up to 25h and 80h to 82h, have texts of their own. "Success" is
      picked for a zero status field only, not for codes 0 with other status bits set. */
  lemma DecodeCompletion(cid: nat, tag: bool, sc: nat, sct: nat, upper: nat)
    requires cid < 0x1_0000 && sc < 256 && sct < 8 && upper < 16
    ensures var t := BafsError(StatusField(PackDw3(cid, tag, PackStatus(sc, sct, upper))));
            && (sct == 0 && sc == 0 ==> t == if upper == 0 then Success else Unknown)
            && (sct == 0 && 0 < sc <= 0x22 ==> t == Generic(sc))
            && (sct == 0 && 0x23 <= sc <= 0x7f ==> t == VendorOrUndefined)
            && (sct == 0 && 0x80 <= sc <= 0x84 ==> t == GenericNvm(sc - 0x80))
            && (sct == 0 && 0x85 <= sc ==> t == VendorOrUndefined)
            && (sct == 1 && sc <= 0x25 ==> t == Specific(sc))
            && (sct == 1 && 0x26 <= sc <= 0x7f ==> t == VendorOrUndefined)
            && (sct == 1 && 0x80 <= sc <= 0x82 ==> t == SpecificNvm(sc - 0x80))
            && (sct == 1 && 0x83 <= sc ==> t == VendorOrUndefined)
            && (sct == 2 ==> t == Media)
            && (sct >= 3 ==> t == UnknownType)
  {
    CompletionRoundTrip(cid, tag, sc, sct, upper);
    ZeroCodes(upper);
  }

  /** No text table is read out of bounds, whatever the status. */
  lemma TextsInTable(status: nat)
    ensures match BafsError(status)
            case Generic(i) => i < 36
            case GenericNvm(i) => i < 5
            case Specific(i) => i < 38
            case SpecificNvm(i) => i < 3
            case _ => true
  {
    CompletionFields(0, status);
  }
}
