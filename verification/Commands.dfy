// The text commands of handle_uart_data and fetch_file_length: C strings, strstr, the sscanf
// pattern, and the decimal printing the host does on the other end.
module Commands {
  import opened Bytes
  import Slip

  const NAME_DOWNLOAD := Ascii("download")
  const NAME_TRANSFER := Ascii("transfer")
  const NAME_UPLOAD := Ascii("upload:")
  const NAME_REBOOT := Ascii("reboot")

  const OPEN: Byte := '(' as int
  const CLOSE: Byte := ')' as int

  function Ascii(text: string): (r: seq<Byte>)
    ensures |r| == |text|
  {
    seq(|text|, i requires 0 <= i < |text| => if text[i] as int < 256 then text[i] as int else 0)
  }

  // --------------------------------------------------------------- C strings

  function CString(buffer: seq<Byte>): (r: seq<Byte>)
    ensures r <= buffer && 0 !in r
    ensures |r| == |buffer| || buffer[|r|] == 0
  {
    if buffer == [] || buffer[0] == 0 then [] else [buffer[0]] + CString(buffer[1..])
  }

  predicate OccursAt(hay: seq<Byte>, needle: seq<Byte>, k: nat) {
    k + |needle| <= |hay| && hay[k..k + |needle|] == needle
  }

  /** strstr: the first occurrence. */
  function StrStr(hay: seq<Byte>, needle: seq<Byte>, from: nat := 0): (r: Option<nat>)
    ensures r.Some? ==> from <= r.value && OccursAt(hay, needle, r.value)
    ensures r.Some? ==> forall k :: from <= k < r.value ==> !OccursAt(hay, needle, k)
    ensures r.None? ==> forall k :: from <= k ==> !OccursAt(hay, needle, k)
    decreases |hay| - from
  {
    if from + |needle| > |hay| then None
    else if hay[from..from + |needle|] == needle then Some(from)
    else StrStr(hay, needle, from + 1)
  }

  predicate Contains(hay: seq<Byte>, needle: seq<Byte>) { StrStr(hay, needle).Some? }

  lemma CStringPadded(text: seq<Byte>, n: nat)
    requires 0 !in text
    ensures CString(text + Zeros(n)) == text
  {
    var b := text + Zeros(n);
    var r := CString(b);
    assert forall k :: 0 <= k < |text| ==> b[k] == text[k];
    assert n > 0 ==> b[|text|] == 0;
    assert |r| <= |text|;
    assert r == b[..|text|] == text;
  }

  lemma FoundAtFront(hay: seq<Byte>, needle: seq<Byte>)
    requires needle <= hay
    ensures StrStr(hay, needle) == Some(0)
  {
  }

  lemma AbsentWithoutFirstByte(hay: seq<Byte>, needle: seq<Byte>)
    requires needle != [] && needle[0] !in hay
    ensures !Contains(hay, needle)
  {
    forall k: nat ensures !OccursAt(hay, needle, k) {
      assert k + |needle| <= |hay| ==> hay[k..k + |needle|][0] == hay[k];
    }
  }

  // ---------------------------------------------------------------- dispatch

  datatype Command = Download | Transfer | Upload(at: nat) | Reboot | Unknown

  /** The if-chain of handle_uart_data: the order of the tests matters. */
  function Classify(buffer: seq<Byte>): (c: Command)
    ensures c.Upload? ==> c.at + 7 <= |CString(buffer)|
  {
    var text := CString(buffer);
    if Contains(text, NAME_DOWNLOAD) then Download
    else if Contains(text, NAME_TRANSFER) then Transfer
    else if Contains(text, NAME_UPLOAD) then Upload(StrStr(text, NAME_UPLOAD).value)
    else if Contains(text, NAME_REBOOT) then Reboot
    else Unknown
  }

  /** The message copied for "upload:". The length is the packet length less the keyword, narrowed
      to uint8_t; the copy starts behind the keyword wherever it was found, so it can run past the
      receive buffer into whatever memory follows. */
  function Uploaded(buffer: seq<Byte>, length: nat, at: nat, beyond: seq<Byte>): seq<Byte> {
    var memory := buffer + beyond;
    seq((length - 7) % 256, i requires 0 <= i => if at + 7 + i < |memory| then memory[at + 7 + i] else 0)
  }

  /** A packet "upload:" + payload hands on the payload's first |payload| mod 256 bytes, so the
      payload itself exactly when it has at most 255 bytes. */
  lemma UploadOfCleanPacket(payload: seq<Byte>, d: Slip.Delivery, beyond: seq<Byte>)
    requires 7 + |payload| < |d.buffer| && d == Slip.Exactly(NAME_UPLOAD + payload, |d.buffer|)
    requires !Contains(CString(d.buffer), NAME_DOWNLOAD) && !Contains(CString(d.buffer), NAME_TRANSFER)
    ensures Classify(d.buffer) == Upload(0)
    ensures Uploaded(d.buffer, d.length, 0, beyond) == payload[..|payload| % 256]
    ensures Uploaded(d.buffer, d.length, 0, beyond) == payload <==> |payload| <= 255
  {
    hide CString, StrStr;
    var padding := Zeros(|d.buffer| - 7 - |payload|);
    Associative(NAME_UPLOAD, payload, padding);
    UploadKeywordFirst(d.buffer, payload + padding);
    UploadedPayload(payload, d, beyond);
  }

  lemma UploadedPayload(payload: seq<Byte>, d: Slip.Delivery, beyond: seq<Byte>)
    requires 7 + |payload| < |d.buffer| && d == Slip.Exactly(NAME_UPLOAD + payload, |d.buffer|)
    ensures Uploaded(d.buffer, d.length, 0, beyond) == payload[..|payload| % 256]
    ensures Uploaded(d.buffer, d.length, 0, beyond) == payload <==> |payload| <= 255
  {
    var message := Uploaded(d.buffer, d.length, 0, beyond);
    assert |message| == |payload| % 256;
    forall i | 0 <= i < |message| ensures message[i] == payload[i] {
      assert (d.buffer + beyond)[7 + i] == d.buffer[7 + i] == (NAME_UPLOAD + payload)[7 + i];
    }
    assert |payload| <= 255 ==> payload[..|payload| % 256] == payload;
  }

  lemma UploadKeywordFirst(buffer: seq<Byte>, rest: seq<Byte>)
    requires buffer == NAME_UPLOAD + rest
    ensures NAME_UPLOAD <= CString(buffer)
    ensures StrStr(CString(buffer), NAME_UPLOAD) == Some(0)
  {
    var text := CString(buffer);
    forall k | 0 <= k < 7 ensures buffer[k] != 0 {
      assert buffer[k] == NAME_UPLOAD[k] == "upload:"[k] as int;
    }
    assert text == buffer[..|text|];
    assert NAME_UPLOAD == buffer[..7];
    FoundAtFront(text, NAME_UPLOAD);
  }

  // ------------------------------------------------- fetch_file_length (sscanf)

  predicate IsDigit(b: Byte) { 48 <= b <= 57 }

  predicate IsSpace(b: Byte) { b == 32 || 9 <= b <= 13 }

  /** %*[^()]: how many leading bytes are not parentheses. */
  function PlainRun(s: seq<Byte>): (n: nat)
    ensures n <= |s| && (forall k :: 0 <= k < n ==> s[k] != OPEN && s[k] != CLOSE)
    ensures n < |s| ==> s[n] == OPEN || s[n] == CLOSE
  {
    if s == [] || s[0] == OPEN || s[0] == CLOSE then 0 else 1 + PlainRun(s[1..])
  }

  function DigitRun(s: seq<Byte>): (n: nat)
    ensures n <= |s| && (forall k :: 0 <= k < n ==> IsDigit(s[k]))
    ensures n < |s| ==> !IsDigit(s[n])
  {
    if s == [] || !IsDigit(s[0]) then 0 else 1 + DigitRun(s[1..])
  }

  function DropSpaces(s: seq<Byte>): seq<Byte> {
    if s == [] || !IsSpace(s[0]) then s else DropSpaces(s[1..])
  }

  function Value(digits: seq<Byte>): nat
    requires forall k :: 0 <= k < |digits| ==> IsDigit(digits[k])
  {
    if digits == [] then
      0
    else
      assert IsDigit(digits[|digits| - 1]);
      10 * Value(digits[..|digits| - 1]) + (digits[|digits| - 1] as int - 48)
  }

  /** An optional sign, then digits. */
  function ScanNumber(t: seq<Byte>): Option<int> {
    var negative := t != [] && t[0] == 45;
    var u := if t != [] && (t[0] == 45 || t[0] == 43) then t[1..] else t;
    var n := DigitRun(u);
    if n == 0 then None
    else
      var magnitude: int := Value(u[..n]);
      var v := if negative then -magnitude else magnitude;
      if -0x8000_0000 <= v < 0x8000_0000 then Some(v) else None
  }

  /** %d. A value an int cannot hold is left unspecified by C; it counts as no value here. */
  function ScanInt(s: seq<Byte>): Option<int> { ScanNumber(DropSpaces(s)) }

  /** sscanf(msg, "%*[^()](%d bytes)", &bytes) == 1: nothing after the number is required. */
  function ScanLength(msg: seq<Byte>): Option<int> {
    var k := PlainRun(msg);
    if k == 0 || k == |msg| || msg[k] != OPEN then None else ScanInt(msg[k + 1..])
  }

  /** fetch_file_length, stored into a uint32_t. If nothing was scanned it returns its unset local. */
  function FetchFileLength(msg: seq<Byte>, unset: int): (r: nat)
    ensures r < UINT32
  {
    (match ScanLength(msg) case Some(v) => v case None => unset) % UINT32
  }

  /** Without the characters '(' and ')'. */
  predicate Plain(s: seq<Byte>) { 40 !in s && 41 !in s }

  predicate Spaces(s: seq<Byte>) { forall k :: 0 <= k < |s| ==> s[k] in {9, 10, 11, 12, 13, 32} }

  predicate Digits(s: seq<Byte>) { forall k :: 0 <= k < |s| ==> IsDigit(s[k]) }

  /** What may stand before the digits; 45 is the minus sign. */
  predicate Sign(s: seq<Byte>) { s == [] || s == [43] || s == [45] }

  function Signed(sign: seq<Byte>, magnitude: int): int { if sign == [45] then -magnitude else magnitude }

  /** A decimal number, behind which anything but another digit may follow. */
  predicate Numeral(s: seq<Byte>, spaces: seq<Byte>, sign: seq<Byte>, digits: seq<Byte>, behind: seq<Byte>) {
    && s == spaces + (sign + (digits + behind))
    && Spaces(spaces) && Sign(sign) && digits != [] && Digits(digits) && (behind != [] ==> !IsDigit(behind[0]))
  }

  /** A text that announces a length: something without parentheses, "(", and a number. */
  predicate Announcement(msg: seq<Byte>, before: seq<Byte>, spaces: seq<Byte>, sign: seq<Byte>,
                         digits: seq<Byte>, behind: seq<Byte>) {
    && before != [] && Plain(before) && |before| < |msg| && msg[..|before|] == before && msg[|before|] == 40
    && Numeral(msg[|before| + 1..], spaces, sign, digits, behind)
  }

  lemma {:induction false} SpacesDropped(spaces: seq<Byte>, u: seq<Byte>)
    requires Spaces(spaces) && (u != [] ==> !IsSpace(u[0]))
    ensures DropSpaces(spaces + u) == u
  {
    if spaces == [] {
      assert spaces + u == u;
    } else {
      assert (spaces + u)[1..] == spaces[1..] + u;
      SpacesDropped(spaces[1..], u);
    }
  }

  lemma DigitsRun(digits: seq<Byte>, behind: seq<Byte>)
    requires Digits(digits) && (behind != [] ==> !IsDigit(behind[0]))
    ensures DigitRun(digits + behind) == |digits|
  {
    var s := digits + behind;
    assert forall k :: 0 <= k < |digits| ==> s[k] == digits[k];
    assert behind != [] ==> s[|digits|] == behind[0];
  }

  function IntOf(sign: seq<Byte>, digits: seq<Byte>): Option<int>
    requires Digits(digits)
  {
    var v := Signed(sign, Value(digits));
    if -0x8000_0000 <= v < 0x8000_0000 then Some(v) else None
  }

  lemma ScanSigned(sign: seq<Byte>, digits: seq<Byte>, behind: seq<Byte>)
    requires Sign(sign) && digits != [] && Digits(digits) && (behind != [] ==> !IsDigit(behind[0]))
    ensures ScanNumber(sign + (digits + behind)) == IntOf(sign, digits)
  {
    hide DigitRun, Value;
    var u := digits + behind;
    var t := sign + u;
    assert u[0] == digits[0] && IsDigit(u[0]);
    assert sign != [] ==> t[1..] == u;
    assert sign == [] ==> t == u;
    DigitsRun(digits, behind);
    assert u[..|digits|] == digits;
  }

  lemma NumeralIsScanned(s: seq<Byte>, spaces: seq<Byte>, sign: seq<Byte>, digits: seq<Byte>, behind: seq<Byte>)
    requires Numeral(s, spaces, sign, digits, behind)
    ensures ScanInt(s) == IntOf(sign, digits)
  {
    hide DropSpaces, ScanNumber, IntOf, Spaces;
    var number := sign + (digits + behind);
    assert (digits + behind)[0] == digits[0] && IsDigit(digits[0]);
    assert number[0] == if sign == [] then digits[0] else sign[0];
    SpacesDropped(spaces, number);
    ScanSigned(sign, digits, behind);
  }

  lemma PlainBefore(msg: seq<Byte>, before: seq<Byte>)
    requires Plain(before) && |before| < |msg| && msg[..|before|] == before && msg[|before|] == OPEN
    ensures PlainRun(msg) == |before|
  {
    assert forall i :: 0 <= i < |before| ==> msg[i] == before[i] && msg[i] in before;
  }

  /** An announced length is scanned, whatever stands around it, unless an int cannot hold it. */
  lemma AnnouncedIsScanned(msg: seq<Byte>, before: seq<Byte>, spaces: seq<Byte>, sign: seq<Byte>,
                           digits: seq<Byte>, behind: seq<Byte>)
    requires Announcement(msg, before, spaces, sign, digits, behind)
    ensures ScanLength(msg) == IntOf(sign, digits)
  {
    hide PlainRun, ScanInt, Numeral, IntOf, Plain;
    PlainBefore(msg, before);
    NumeralIsScanned(msg[|before| + 1..], spaces, sign, digits, behind);
  }

  lemma DigitsTaken(u: seq<Byte>)
    ensures var n := DigitRun(u);
            && Digits(u[..n]) && (u[n..] != [] ==> !IsDigit(u[n..][0])) && u == u[..n] + u[n..]
  {
  }

  lemma ScannedIsNumber(t: seq<Byte>) returns (sign: seq<Byte>, digits: seq<Byte>, behind: seq<Byte>)
    requires ScanNumber(t).Some?
    ensures t == sign + (digits + behind)
    ensures Sign(sign) && digits != [] && Digits(digits) && (behind != [] ==> !IsDigit(behind[0]))
  {
    hide DigitRun, Value, Digits, IsDigit;
    var signed := t != [] && (t[0] == 45 || t[0] == 43);
    sign := if signed then t[..1] else [];
    var u := if signed then t[1..] else t;
    DigitsTaken(u);
    digits, behind := u[..DigitRun(u)], u[DigitRun(u)..];
    assert t == sign + u;
  }

  lemma ScannedIsNumeral(s: seq<Byte>)
    returns (spaces: seq<Byte>, sign: seq<Byte>, digits: seq<Byte>, behind: seq<Byte>)
    requires ScanInt(s).Some?
    ensures Numeral(s, spaces, sign, digits, behind)
  {
    hide DropSpaces, ScanNumber, Spaces, Sign, Digits, IsDigit;
    spaces := LeadingSpaces(s);
    sign, digits, behind := ScannedIsNumber(DropSpaces(s));
    assert s == spaces + s[|spaces|..];
  }

  /** And nothing else is. */
  lemma ScannedIsAnnounced(msg: seq<Byte>)
    returns (before: seq<Byte>, spaces: seq<Byte>, sign: seq<Byte>, digits: seq<Byte>, behind: seq<Byte>)
    requires ScanLength(msg).Some?
    ensures Announcement(msg, before, spaces, sign, digits, behind)
  {
    hide ScanInt, Numeral;
    var k := PlainRun(msg);
    before := msg[..k];
    spaces, sign, digits, behind := ScannedIsNumeral(msg[k + 1..]);
  }

  lemma {:induction false} LeadingSpaces(s: seq<Byte>) returns (spaces: seq<Byte>)
    ensures Spaces(spaces) && spaces <= s && s[|spaces|..] == DropSpaces(s)
  {
    if s == [] || !IsSpace(s[0]) {
      spaces := [];
    } else {
      var rest := LeadingSpaces(s[1..]);
      spaces := [s[0]] + rest;
    }
  }

  /** The length is stored into a uint32_t: a negative one becomes huge, and without one the function
      returns whatever its local variable held. */
  lemma FetchedLength(msg: seq<Byte>, unset: int)
    ensures var r := FetchFileLength(msg, unset);
            match ScanLength(msg)
            case Some(v) => r == (if v >= 0 then v else 0x1_0000_0000 + v)
            case None => (r - unset) % 0x1_0000_0000 == 0
  {
    hide ScanLength;
    if ScanLength(msg).Some? {
      ScanRange(msg);
    }
  }

  lemma ScanRange(msg: seq<Byte>)
    requires ScanLength(msg).Some?
    ensures -0x8000_0000 <= ScanLength(msg).value < 0x8000_0000
  {
  }

  // ------------------------------------------------------ the host's printing

  /** Python's decimal form of a natural number. */
  function Decimal(n: nat): (r: seq<Byte>)
    ensures 0 < |r| && forall k :: 0 <= k < |r| ==> IsDigit(r[k])
    ensures Value(r) == n
  {
    if n < 10 then
      var r := [(48 + n) as Byte];
      assert r[..0] == [];
      r
    else
      var front := Decimal(n / 10);
      var r := front + [(48 + n % 10) as Byte];
      assert r[..|r| - 1] == front;
      r
  }

  /** f"transfer({total_size} bytes)" */
  function TransferCommand(n: nat): seq<Byte> {
    NAME_TRANSFER + [OPEN] + Decimal(n) + Ascii(" bytes)")
  }

  lemma TransferCommandShape(n: nat)
    ensures var c := TransferCommand(n);
            && |c| == 16 + |Decimal(n)|
            && NAME_TRANSFER <= c && 0 !in c && 100 !in c
            && (forall k :: 0 <= k < |c| ==> c[k] < 128)
  {
    var c := TransferCommand(n);
    forall k | 0 <= k < |c| ensures c[k] != 0 && c[k] != 100 && c[k] < 128 {
      if k < 8 {
        assert c[k] == NAME_TRANSFER[k] == "transfer"[k] as int;
      } else if k == 8 {
        assert c[k] == OPEN;
      } else if k < 9 + |Decimal(n)| {
        assert c[k] == Decimal(n)[k - 9];
      } else {
        assert c[k] == Ascii(" bytes)")[k - 9 - |Decimal(n)|] == " bytes)"[k - 9 - |Decimal(n)|] as int;
      }
    }
  }

  lemma TransferCommandText(n: nat)
    ensures TransferCommand(n) == Ascii("transfer(") + Decimal(n) + Ascii(" bytes)")
  {
    hide Decimal;
    var front := Ascii("transfer(");
    forall k | 0 <= k < 9 ensures (NAME_TRANSFER + [OPEN])[k] == front[k] {
      assert "transfer"[..] + ['('] == "transfer(";
    }
    assert NAME_TRANSFER + [OPEN] == front;
  }

  lemma DecimalLength(n: nat, digits: nat)
    requires digits >= 1 && n < Pow10(digits)
    ensures |Decimal(n)| <= digits
    decreases digits
  {
    if n >= 10 {
      DecimalLength(n / 10, digits - 1);
    }
  }

  function Pow10(k: nat): nat { if k == 0 then 1 else 10 * Pow10(k - 1) }

  /** What the host prints for a length below 2^31 is classified as a transfer and scanned back to
      the same length. */
  lemma TransferCommandRoundTrip(n: nat, buffer: seq<Byte>, padding: nat, unset: int)
    requires n < 0x8000_0000 && buffer == TransferCommand(n) + Zeros(padding)
    ensures CString(buffer) == TransferCommand(n)
    ensures Classify(buffer) == Transfer
    ensures FetchFileLength(CString(buffer), unset) == n
  {
    var c := TransferCommand(n);
    TransferCommandShape(n);
    CStringPadded(c, padding);
    ClassifiedAsTransfer(buffer, c);
    ScanTransferCommand(n);
    FetchScanned(c, n, unset);
  }

  lemma FetchScanned(msg: seq<Byte>, n: nat, unset: int)
    requires n < UINT32 && ScanLength(msg) == Some(n)
    ensures FetchFileLength(msg, unset) == n
  {
  }

  lemma ClassifiedAsTransfer(buffer: seq<Byte>, text: seq<Byte>)
    requires CString(buffer) == text && NAME_TRANSFER <= text && 100 !in text
    ensures Classify(buffer) == Transfer
  {
    assert NAME_DOWNLOAD[0] == "download"[0] as int == 100;
    AbsentWithoutFirstByte(text, NAME_DOWNLOAD);
    FoundAtFront(text, NAME_TRANSFER);
  }

  lemma ScanTransferCommand(n: nat)
    requires n < 0x8000_0000
    ensures ScanLength(TransferCommand(n)) == Some(n)
  {
    hide Decimal, ScanLength, Value;
    var c, d, behind := TransferCommand(n), Decimal(n), Ascii(" bytes)");
    forall i | 0 <= i < 8 ensures NAME_TRANSFER[i] != OPEN && NAME_TRANSFER[i] != CLOSE {
      assert NAME_TRANSFER[i] == "transfer"[i] as int;
    }
    assert behind[0] == " bytes)"[0] as int;
    assert c[..8] == NAME_TRANSFER && c[8] == OPEN;
    assert c[9..] == [] + ([] + (d + behind));
    AnnouncedIsScanned(c, NAME_TRANSFER, [], [], d, behind);
  }
}
