/** What length a request has: the Content-Length fields of its head, as section 6.2 of RFC 9112 reads them and
    as src/http_parser.c reads them, and exactly when the two agree. */
module HttpFraming {
  import opened Bytes
  import opened ContentLength
  import opened Http
  import opened Options

  // ---- The fields of a head ----

  /** The values of the Content-Length fields, in order. */
  function LengthFields(headers: seq<Header>): seq<seq<Byte>> {
    if headers == [] then []
    else
      var h := headers[|headers| - 1];
      LengthFields(headers[..|headers| - 1]) + if SameName(h.name, CONTENT_LENGTH) then [h.value] else []
  }

  predicate AnyTooLarge(fields: seq<seq<Byte>>) {
    exists i :: 0 <= i < |fields| && LengthValue(fields[i]) > MAX_BODY_SIZE
  }

  lemma ReadStep(headers: seq<Header>)
    requires headers != []
    ensures var before, h := ReadHeaders(headers[..|headers| - 1]), headers[|headers| - 1];
            var f := ReadHeaders(headers);
            && f.length == (if SameName(h.name, CONTENT_LENGTH) then LengthValue(h.value) else before.length)
            && f.tooLarge == (before.tooLarge || (SameName(h.name, CONTENT_LENGTH) && LengthValue(h.value) > MAX_BODY_SIZE))
  {
    hide SameName, LengthValue;
  }

  lemma FieldsStep(headers: seq<Header>)
    requires headers != []
    ensures var h := headers[|headers| - 1];
            LengthFields(headers) ==
            LengthFields(headers[..|headers| - 1]) + if SameName(h.name, CONTENT_LENGTH) then [h.value] else []
  {
    hide SameName;
  }

  lemma NothingRead()
    ensures ReadHeaders([]) == Framing(0, false, false) && LengthFields([]) == [] && !AnyTooLarge([])
  {
  }

  /** The header loop takes the last field and refuses if any is too large. */
  lemma {:induction false} FramingOfFields(headers: seq<Header>)
    ensures var fields := LengthFields(headers);
            && ReadHeaders(headers).length == (if fields == [] then 0 else LengthValue(fields[|fields| - 1]))
            && ReadHeaders(headers).tooLarge == AnyTooLarge(fields)
    decreases |headers|
  {
    hide *;
    if headers == [] {
      NothingRead();
    } else {
      var before, h := headers[..|headers| - 1], headers[|headers| - 1];
      FramingOfFields(before);
      ReadStep(headers);
      FieldsStep(headers);
      assert LengthFields(before) + [] == LengthFields(before);
      OneMoreField(LengthFields(before), h.value);
    }
  }

  lemma OneMoreField(fields: seq<seq<Byte>>, v: seq<Byte>)
    ensures AnyTooLarge(fields + [v]) == (AnyTooLarge(fields) || LengthValue(v) > MAX_BODY_SIZE)
  {
    hide LengthValue;
    var all := fields + [v];
    assert all[|fields|] == v;
    if AnyTooLarge(fields) {
      var i :| 0 <= i < |fields| && LengthValue(fields[i]) > MAX_BODY_SIZE;
      assert all[i] == fields[i];
    }
  }

  // ---- The rule of the standard ----

  /** tchar, what field names are made of. */
  predicate IsTokenByte(c: Byte) {
    IsDigit(c) || 65 <= c <= 90 || 97 <= c <= 122 || c in {33, 35, 36, 37, 38, 39, 42, 43, 45, 46, 94, 95, 96, 124, 126}
  }

  predicate IsToken(s: seq<Byte>) {
    s != [] && forall i :: 0 <= i < |s| ==> IsTokenByte(s[i])
  }

  const TRANSFER_ENCODING: seq<Byte> := [116, 114, 97, 110, 115, 102, 101, 114, 45, 101, 110, 99, 111, 100, 105, 110, 103]

  predicate HasTransferEncoding(headers: seq<Header>) {
    exists i :: 0 <= i < |headers| && SameName(headers[i].name, TRANSFER_ENCODING)
  }

  /** The length of the body of a request, by the fields of its head (sections 5.1 and 6.1 to 6.3 of RFC 9112). With a
      Transfer-Encoding it is not what a Content-Length says. Without one, no Content-Length is length 0, and fields
      whose elements are all the same number are that number. Anything else is invalid, also a field name that is
      none, such as one with a blank before the colon or one that is the continuation of a line; where the standard
      leaves a choice, that is to be refused. */
  datatype Length = Octets(n: nat) | Coded | Invalid

  function StandardLength(headers: seq<Header>): Length {
    var fields := LengthFields(headers);
    var members := AllMembers(fields);
    if exists i :: 0 <= i < |headers| && !IsToken(headers[i].name) then Invalid
    else if HasTransferEncoding(headers) then Coded
    else if fields == [] then Octets(0)
    else if members != [] && IsNumber(members[0]) && AllSay(members, Decimal(members[0])) then Octets(Decimal(members[0]))
    else Invalid
  }

  /** What the parser does about the length is what the standard says: it refuses what is invalid or coded in a way it
      does not read, and also what is larger than it takes, and otherwise reads that many bytes. */
  predicate FramedByStandard(headers: seq<Header>) {
    var f := ReadHeaders(headers);
    match StandardLength(headers)
    case Octets(n) => if n > MAX_BODY_SIZE then f.tooLarge else !f.tooLarge && f.length == n
    case _ => f.tooLarge
  }

  /** Every field says what they all say. */
  lemma {:induction false} MembersOf(fields: seq<seq<Byte>>, n: nat, i: nat)
    requires AllSay(AllMembers(fields), n) && i < |fields|
    ensures AllSay(Members(fields[i]), n)
    decreases |fields|
  {
    hide Decimal, Members;
    var init, last := fields[..|fields| - 1], Members(fields[|fields| - 1]);
    var all, before := AllMembers(fields), AllMembers(init);
    assert forall k :: 0 <= k < |before| ==> before[k] == all[k];
    assert forall k :: 0 <= k < |last| ==> last[k] == all[|before| + k];
    if i < |init| { MembersOf(init, n, i); }
  }

  /** Some field makes the parser refuse. */
  predicate Refused(headers: seq<Header>) {
    var fields := LengthFields(headers);
    exists i :: 0 <= i < |fields| && Decimal(OnlyDigits(fields[i])) % TWO_64 > MAX_BODY_SIZE
  }

  lemma RefusedIff(headers: seq<Header>)
    ensures Refused(headers) <==> ReadHeaders(headers).tooLarge
  {
    hide Decimal, OnlyDigits, LengthValue, LengthFields, ReadHeaders;
    var fields := LengthFields(headers);
    FramingOfFields(headers);
    forall i | 0 <= i < |fields| ensures LengthValue(fields[i]) == Decimal(OnlyDigits(fields[i])) % TWO_64 {
      LengthMeaning(fields[i]);
    }
  }

  /** Exactly when. With a Transfer-Encoding, with fields that are no one number and with a number above the limit: if
      the digits of some field make a number above the limit modulo 2^64, so that the request is refused. Otherwise: if
      no field does, and the last one is read right. */
  lemma FramedByStandardIff(headers: seq<Header>)
    ensures var fields := LengthFields(headers);
            FramedByStandard(headers) <==>
            match StandardLength(headers)
            case Octets(n) =>
              if n > MAX_BODY_SIZE then Refused(headers)
              else !Refused(headers) && (fields == [] || ReadRight(fields[|fields| - 1], n))
            case _ => Refused(headers)
  {
    hide Decimal, OnlyDigits, LengthValue, LengthFields, ReadHeaders, Members, AllMembers, ReadRight, Refused;
    var fields := LengthFields(headers);
    FramingOfFields(headers);
    RefusedIff(headers);
    if StandardLength(headers).Octets? && fields != [] {
      var n := StandardLength(headers).n;
      MembersOf(fields, n, |fields| - 1);
      FieldReadIff(fields[|fields| - 1], n);
    }
  }

  /** When every field is one element, the same number n in all of them: exactly if n is below 2^64, or wraps around to
      more than the limit. */
  lemma OneNumberIff(headers: seq<Header>)
    requires StandardLength(headers).Octets?
    requires forall i :: 0 <= i < |LengthFields(headers)| ==> |Members(LengthFields(headers)[i])| == 1
    ensures var n := StandardLength(headers).n;
            FramedByStandard(headers) <==> n < TWO_64 || n % TWO_64 > MAX_BODY_SIZE
  {
    hide Decimal, OnlyDigits, LengthValue, LengthFields, ReadHeaders, Members, AllMembers, ReadRight, Refused;
    var fields, n := LengthFields(headers), StandardLength(headers).n;
    FramingOfFields(headers);
    forall i | 0 <= i < |fields| ensures LengthValue(fields[i]) == n % TWO_64 {
      MembersOf(fields, n, i);
      FieldReadIff(fields[i], n);
    }
    if fields != [] { assert LengthValue(fields[0]) > MAX_BODY_SIZE ==> AnyTooLarge(fields); }
  }

  // ---- Whole requests ----

  /** A buffer with a complete head. */
  predicate HasHead(buf: seq<Byte>) {
    HeaderEnd(buf, 0).Some? && ParseHead(buf, HeaderEnd(buf, 0).value).Some?
  }

  function HeadersOf(buf: seq<Byte>): seq<Header>
    requires HasHead(buf)
  {
    ParseHead(buf, HeaderEnd(buf, 0).value).value.1
  }

  function BodyStart(buf: seq<Byte>): (n: nat)
    requires HasHead(buf)
    ensures n <= |buf|
  {
    HeaderEnd(buf, 0).value + 4
  }

  /** The request takes n bytes behind its head as its body, and waits until they are there. */
  predicate Takes(buf: seq<Byte>, n: nat)
    requires HasHead(buf)
  {
    var start, r := BodyStart(buf), ParseRequest(buf);
    if |buf| < start + n then r == Incomplete
    else r.Ok? && r.request.consumed == start + n && r.request.contentLength == n && r.request.body == buf[start..start + n]
  }

  /** How many bytes the digits of the last Content-Length ask for. */
  function DigitsAskFor(headers: seq<Header>): nat {
    var fields := LengthFields(headers);
    if fields == [] then 0 else Decimal(OnlyDigits(fields[|fields| - 1])) % TWO_64
  }

  /** Every request with a complete head is refused, or takes what the digits of its last Content-Length ask for. */
  lemma RequestTakes(buf: seq<Byte>)
    requires HasHead(buf)
    ensures if Refused(HeadersOf(buf)) then ParseRequest(buf) == Error else Takes(buf, DigitsAskFor(HeadersOf(buf)))
    ensures ReadHeaders(HeadersOf(buf)).length == DigitsAskFor(HeadersOf(buf))
    ensures !Refused(HeadersOf(buf)) ==> DigitsAskFor(HeadersOf(buf)) <= MAX_BODY_SIZE
  {
    hide ParseHead, HeaderEnd, ReadHeaders, HasConnection, Decimal, OnlyDigits, LengthValue, LengthFields, Refused;
    var headers := HeadersOf(buf);
    FramingOfFields(headers);
    RefusedIff(headers);
    if LengthFields(headers) != [] { LengthMeaning(LengthFields(headers)[|LengthFields(headers)| - 1]); }
  }

  /** Where the fields are framed by the standard, a request is refused if its length is invalid, coded or above the
      limit; otherwise it waits for exactly that many bytes, and they are its body. */
  lemma RequestFramedByStandard(buf: seq<Byte>)
    requires HasHead(buf) && FramedByStandard(HeadersOf(buf))
    ensures match StandardLength(HeadersOf(buf))
            case Octets(n) => if n > MAX_BODY_SIZE then ParseRequest(buf) == Error else Takes(buf, n)
            case _ => ParseRequest(buf) == Error
  {
    hide HasHead, HeadersOf, Takes, ParseRequest, ReadHeaders, StandardLength, Refused, DigitsAskFor;
    RequestTakes(buf);
    RefusedIff(HeadersOf(buf));
  }

  /** Where they are not, a request is taken that should be refused or read by its chunks, or another number of bytes is
      taken than the standard says, or a request is refused whose length is within the limit. */
  lemma RequestFramedOtherwise(buf: seq<Byte>)
    requires HasHead(buf) && !FramedByStandard(HeadersOf(buf))
    ensures var n := DigitsAskFor(HeadersOf(buf));
            match StandardLength(HeadersOf(buf))
            case Octets(m) => if ParseRequest(buf) == Error then m <= MAX_BODY_SIZE else Takes(buf, n) && n != m
            case _ => Takes(buf, n)
  {
    hide HasHead, HeadersOf, ReadHeaders, StandardLength, Refused, DigitsAskFor;
    RequestTakes(buf);
    RefusedIff(HeadersOf(buf));
  }

  /** A request with a Transfer-Encoding and no Content-Length has no body for the parser, whatever follows its head:
      the chunks are left as the beginning of the next request. */
  lemma CodedRequest(buf: seq<Byte>)
    requires HasHead(buf) && StandardLength(HeadersOf(buf)) == Coded && LengthFields(HeadersOf(buf)) == []
    ensures var r := ParseRequest(buf);
            r.Ok? && r.request.consumed == BodyStart(buf) && r.request.body == [] && !FramedByStandard(HeadersOf(buf))
  {
    hide HasHead, HeadersOf, BodyStart, ReadHeaders, StandardLength, ParseRequest, LengthFields;
    RequestTakes(buf);
    RefusedIff(HeadersOf(buf));
  }

  // ---- Inputs that are not framed by the standard ----

  const WRAPPING: seq<Byte> := [49, 56, 52, 52, 54, 55, 52, 52, 48, 55, 51, 55, 48, 57, 53, 53, 49, 54, 50, 49]   // 18446744073709551621

  lemma Wrapping()
    ensures IsNumber(WRAPPING) && Decimal(WRAPPING) == TWO_64 + 5 && LengthValue(WRAPPING) == 5
  {
    hide Decimal, LengthValue, OnlyDigits;
    NoDigits();
    var a, b, c: seq<Byte> := WRAPPING[..5], WRAPPING[..10], WRAPPING[..15];
    Five([], 0, 49, 56, 52, 52, 54);
    assert [] + [49, 56, 52, 52, 54] == a;
    Five(a, 18446, 55, 52, 52, 48, 55);
    assert a + [55, 52, 52, 48, 55] == b;
    Five(b, 1844674407, 51, 55, 48, 57, 53);
    assert b + [51, 55, 48, 57, 53] == c;
    Five(c, 184467440737095, 53, 49, 54, 50, 49);
    assert c + [53, 49, 54, 50, 49] == WRAPPING;
    DigitsOfNumber(WRAPPING);
    LengthMeaning(WRAPPING);
  }

  /** Five more digits. */
  lemma Five(s: seq<Byte>, n: nat, a: Byte, b: Byte, c: Byte, d: Byte, e: Byte)
    requires IsDigit(a) && IsDigit(b) && IsDigit(c) && IsDigit(d) && IsDigit(e)
    requires (forall i :: 0 <= i < |s| ==> IsDigit(s[i])) && Decimal(s) == n
    ensures forall i :: 0 <= i < |s| + 5 ==> IsDigit((s + [a, b, c, d, e])[i])
    ensures Decimal(s + [a, b, c, d, e]) ==
            100000 * n + 10000 * (a - 48) + 1000 * (b - 48) + 100 * (c - 48) + 10 * (d - 48) + (e - 48)
  {
    hide Decimal;
    DecimalSnoc(s, a);
    DecimalSnoc(s + [a], b);
    DecimalSnoc(s + [a] + [b], c);
    DecimalSnoc(s + [a] + [b] + [c], d);
    DecimalSnoc(s + [a] + [b] + [c] + [d], e);
    assert s + [a] + [b] + [c] + [d] + [e] == s + [a, b, c, d, e];
  }

  lemma SmallValues()
    ensures LengthValue([49, 120, 48]) == 10 && !IsNumber([49, 120, 48])   // 1x0
    ensures LengthValue([45, 53]) == 5 && !IsNumber([45, 53])              // -5
    ensures LengthValue([53]) == 5 && LengthValue([55]) == 7
  {
    var a, b: seq<Byte> := [49, 120, 48], [45, 53];
    assert a[..2] == [49, 120] && [49, 120][..1] == [49] && [49][..0] == [];
    assert LengthValue([49]) == 1;
    assert LengthValue([49, 120]) == 1;
    assert a[1] == 120 && b[0] == 45;
    assert b[..1] == [45] && [45][..0] == [] && LengthValue([45]) == 0;
    assert [53][..0] == [] && [55][..0] == [];
  }

  /** One field, or two. */
  lemma FieldsOfOne(v: seq<Byte>)
    ensures LengthFields([Header(CONTENT_LENGTH, v)]) == [v]
  {
    var h := [Header(CONTENT_LENGTH, v)];
    assert h[..0] == [];
  }

  lemma FieldsOfTwo(v: seq<Byte>, w: seq<Byte>)
    ensures LengthFields([Header(CONTENT_LENGTH, v), Header(CONTENT_LENGTH, w)]) == [v, w]
  {
    var h := [Header(CONTENT_LENGTH, v), Header(CONTENT_LENGTH, w)];
    assert h[..1] == [Header(CONTENT_LENGTH, v)];
    FieldsOfOne(v);
  }

  lemma {:induction false} OnePiece(v: seq<Byte>)
    requires COMMA !in v
    ensures Pieces(v) == [v]
    decreases |v|
  {
    if v != [] {
      OnePiece(v[..|v| - 1]);
      assert v[|v| - 1] in v;
      assert [v[..|v| - 1]][..0] == [];
      assert v[..|v| - 1] + [v[|v| - 1]] == v;
    }
  }

  /** A text without commas, and without blanks at its ends, is one element. */
  lemma OneMember(v: seq<Byte>)
    requires v != [] && COMMA !in v && !IsBlank(v[0]) && !IsBlank(v[|v| - 1])
    ensures Members(v) == [v]
  {
    OnePiece(v);
    assert Trim(v) == v;
    ElementsOfOne(v);
  }

  lemma ElementsOfOne(piece: seq<Byte>)
    ensures Elements([piece]) == if Trim(piece) == [] then [] else [Trim(piece)]
  {
    var p := [piece];
    assert p[..0] == [];
  }

  lemma NumberIsMember(v: seq<Byte>)
    requires IsNumber(v)
    ensures Members(v) == [v]
  {
    hide Members;
    OneMember(v);
  }

  lemma MembersOfOne(v: seq<Byte>)
    ensures AllMembers([v]) == Members(v)
  {
    hide Members;
    var f := [v];
    assert f[..0] == [];
  }

  /** What the standard says of fields with this name only. */
  lemma StandardOfFields(headers: seq<Header>, fields: seq<seq<Byte>>)
    requires LengthFields(headers) == fields && fields != []
    requires forall i :: 0 <= i < |headers| ==> headers[i].name == CONTENT_LENGTH
    ensures var members := AllMembers(fields);
            StandardLength(headers) ==
            if members != [] && IsNumber(members[0]) && AllSay(members, Decimal(members[0])) then Octets(Decimal(members[0]))
            else Invalid
  {
    hide Decimal, LengthFields, AllMembers, IsNumber, AllSay;
    assert IsToken(CONTENT_LENGTH) && |CONTENT_LENGTH| != |TRANSFER_ENCODING|;
  }

  lemma StandardOfOne(v: seq<Byte>)
    ensures var members := Members(v);
            StandardLength([Header(CONTENT_LENGTH, v)]) ==
            if members != [] && IsNumber(members[0]) && AllSay(members, Decimal(members[0])) then Octets(Decimal(members[0]))
            else Invalid
  {
    hide Decimal, LengthFields, AllMembers, IsNumber, AllSay, Members, StandardLength;
    FieldsOfOne(v);
    StandardOfFields([Header(CONTENT_LENGTH, v)], [v]);
    MembersOfOne(v);
  }

  lemma NumberSays(v: seq<Byte>)
    requires IsNumber(v)
    ensures StandardLength([Header(CONTENT_LENGTH, v)]) == Octets(Decimal(v))
  {
    hide Decimal, StandardLength, Members;
    NumberIsMember(v);
    StandardOfOne(v);
  }

  lemma OtherIsInvalid(v: seq<Byte>)
    requires v != [] && COMMA !in v && !IsBlank(v[0]) && !IsBlank(v[|v| - 1]) && !IsNumber(v)
    ensures StandardLength([Header(CONTENT_LENGTH, v)]) == Invalid
  {
    hide Decimal, StandardLength, Members, IsNumber;
    OneMember(v);
    StandardOfOne(v);
  }

  lemma OneDigit(c: Byte)
    requires IsDigit(c)
    ensures IsNumber([c]) && Decimal([c]) == c - 48 && Members([c]) == [[c]]
  {
    DecimalSnoc([], c);
    NoDigits();
    assert [] + [c] == [c];
    NumberIsMember([c]);
  }

  /** 5 and 7 in two fields are no one number. */
  lemma TwoNumbersInvalid()
    ensures StandardLength([Header(CONTENT_LENGTH, [53]), Header(CONTENT_LENGTH, [55])]) == Invalid
  {
    hide Decimal, LengthFields, Members, StandardLength;
    OneDigit(53);
    OneDigit(55);
    FieldsOfTwo([53], [55]);
    var fields: seq<seq<Byte>> := [[53], [55]];
    assert fields[..1] == [[53]];
    MembersOfOne([53]);
    var members := AllMembers(fields);
    assert members == [[53], [55]];
    assert members[1] == [55];
    StandardOfFields([Header(CONTENT_LENGTH, [53]), Header(CONTENT_LENGTH, [55])], fields);
  }

  const LIST: seq<Byte> := [53, 44, 32, 53]   // 5, 5

  /** A list of one number, and a number with a blank behind it. */
  lemma ListSaysFive()
    ensures StandardLength([Header(CONTENT_LENGTH, LIST)]) == Octets(5) && LengthValue(LIST) == 55
    ensures StandardLength([Header(CONTENT_LENGTH, [53, SPACE])]) == Octets(5) && LengthValue([53, SPACE]) == 5
  {
    hide Decimal, StandardLength, LengthValue, OnlyDigits;
    OneDigit(53);
    ListPieces();
    var list: seq<seq<Byte>> := [[53], [53]];
    StandardOfOne(LIST);
    StandardOfOne([53, SPACE]);
    ListDigits();
    LengthMeaning(LIST);
    LengthMeaning([53, SPACE]);
    assert Decimal([53, 53]) == 55 by { DecimalSnoc([53], 53); assert [53] + [53] == [53, 53]; }
  }

  lemma ListPieces()
    ensures Members(LIST) == [[53], [53]] && Members([53, SPACE]) == [[53]]
  {
    hide Pieces;
    assert Pieces(LIST) == [[53], [SPACE, 53]] by { PiecesOfList(); }
    assert Trim([SPACE, 53]) == [53] by { TrimFive(); }
    assert Trim([53]) == [53] by { TrimFive(); }
    var two: seq<seq<Byte>> := [[53], [SPACE, 53]];
    assert two[..1] == [[53]];
    ElementsOfOne([53]);
    OnePiece([53, SPACE]);
    assert Trim([53, SPACE]) == [53] by { TrimFive(); }
    ElementsOfOne([53, SPACE]);
  }

  lemma PiecesOfList()
    ensures Pieces(LIST) == [[53], [SPACE, 53]]
  {
    hide Pieces;
    var a, b, c: seq<Byte> := [53], [53, COMMA], [53, COMMA, SPACE];
    OnePiece(a);
    assert b[..1] == a;
    LastPiece(b);
    assert c[..2] == b && Pieces(b) == [a, []];
    LastPiece(c);
    assert [a, []][..1] == [a] && [] + [SPACE] == [SPACE];
    assert LIST[..3] == c && Pieces(c) == [a, [SPACE]];
    LastPiece(LIST);
    assert [a, [SPACE]][..1] == [a] && [SPACE] + [53] == [SPACE, 53];
  }

  lemma LastPiece(s: seq<Byte>)
    requires s != []
    ensures var before, c := Pieces(s[..|s| - 1]), s[|s| - 1];
            Pieces(s) == if c == COMMA then before + [[]] else before[..|before| - 1] + [before[|before| - 1] + [c]]
  {
  }

  lemma TrimFive()
    ensures Trim([SPACE, 53]) == [53] && Trim([53]) == [53] && Trim([53, SPACE]) == [53]
  {
    var a, b: seq<Byte> := [SPACE, 53], [53, SPACE];
    assert a[1..] == [53] && b[..1] == [53];
    assert TrimLeft([53]) == [53] && TrimRight([53]) == [53];
    assert TrimLeft(a) == [53] && TrimLeft(b) == b && TrimRight(b) == [53];
  }

  lemma ListDigits()
    ensures OnlyDigits(LIST) == [53, 53] && OnlyDigits([53, SPACE]) == [53]
  {
    var a, b, c, d: seq<Byte> := [53], [53, COMMA], [53, COMMA, SPACE], [53, SPACE];
    assert a[..0] == [] && OnlyDigits(a) == [53];
    assert b[..1] == a && OnlyDigits(b) == [53];
    assert c[..2] == b && OnlyDigits(c) == [53];
    assert LIST[..3] == c && d[..1] == a;
  }

  /** A number beyond 64 bits, a text that is no number, a negative number and two different fields are taken as some
      length, where the standard demands a refusal or another length; a list of one number is taken as another one. */
  lemma NotByStandard()
    ensures !FramedByStandard([Header(CONTENT_LENGTH, WRAPPING)]) && ReadHeaders([Header(CONTENT_LENGTH, WRAPPING)]).length == 5
    ensures !FramedByStandard([Header(CONTENT_LENGTH, [49, 120, 48])]) &&
            ReadHeaders([Header(CONTENT_LENGTH, [49, 120, 48])]).length == 10
    ensures !FramedByStandard([Header(CONTENT_LENGTH, [45, 53])]) && ReadHeaders([Header(CONTENT_LENGTH, [45, 53])]).length == 5
    ensures !FramedByStandard([Header(CONTENT_LENGTH, [53]), Header(CONTENT_LENGTH, [55])]) &&
            ReadHeaders([Header(CONTENT_LENGTH, [53]), Header(CONTENT_LENGTH, [55])]).length == 7
    ensures !FramedByStandard([Header(CONTENT_LENGTH, LIST)]) && ReadHeaders([Header(CONTENT_LENGTH, LIST)]).length == 55
  {
    hide LengthValue, ReadHeaders, LengthFields, Decimal, StandardLength;
    Wrapping();
    SmallValues();
    ListSaysFive();
    TakenAs([Header(CONTENT_LENGTH, WRAPPING)], [WRAPPING]) by { FieldsOfOne(WRAPPING); NumberSays(WRAPPING); }
    TakenAs([Header(CONTENT_LENGTH, [49, 120, 48])], [[49, 120, 48]]) by { FieldsOfOne([49, 120, 48]); OtherIsInvalid([49, 120, 48]); }
    TakenAs([Header(CONTENT_LENGTH, [45, 53])], [[45, 53]]) by { FieldsOfOne([45, 53]); OtherIsInvalid([45, 53]); }
    var two: seq<seq<Byte>> := [[53], [55]];
    TakenAs([Header(CONTENT_LENGTH, [53]), Header(CONTENT_LENGTH, [55])], two) by { FieldsOfTwo([53], [55]); TwoNumbersInvalid(); }
    TakenAs([Header(CONTENT_LENGTH, LIST)], [LIST]) by { FieldsOfOne(LIST); }
  }

  /** A number with a blank behind it is framed as the standard has it. */
  lemma TrailingBlankIsFramed()
    ensures FramedByStandard([Header(CONTENT_LENGTH, [53, SPACE])])
  {
    hide LengthValue, ReadHeaders, LengthFields, Decimal, StandardLength;
    FieldsOfOne([53, SPACE]);
    ListSaysFive();
    FramingOfFields([Header(CONTENT_LENGTH, [53, SPACE])]);
  }

  /** Fields that are not too large, where the standard does not say what the last one is read as. */
  lemma TakenAs(headers: seq<Header>, fields: seq<seq<Byte>>)
    requires LengthFields(headers) == fields && fields != []
    requires forall i :: 0 <= i < |fields| ==> LengthValue(fields[i]) <= MAX_BODY_SIZE
    requires StandardLength(headers) != Octets(LengthValue(fields[|fields| - 1]))
    ensures !FramedByStandard(headers) && ReadHeaders(headers).length == LengthValue(fields[|fields| - 1])
  {
    hide LengthValue, ReadHeaders, LengthFields, StandardLength;
    FramingOfFields(headers);
  }

  // ---- Requests with one field ----

  const GET_LINE: seq<Byte> := [71, 69, 84, 32, 47, 32, 72, 84, 84, 80, 47, 49, 46, 49, CR, LF]   // GET / HTTP/1.1

  /** A request with one field and whatever follows its head. */
  function WithField(name: seq<Byte>, v: seq<Byte>, body: seq<Byte>): seq<Byte> {
    GET_LINE + (name + ([COLON, SPACE] + (v + ([CR, LF, CR, LF] + body))))
  }

  /** Name and value stand on one line, and the value does not start with a space. */
  predicate OnOneLine(name: seq<Byte>, v: seq<Byte>) {
    name != [] && CR !in name && COLON !in name && CR !in v && (v != [] ==> v[0] != SPACE)
  }

  /** Where everything is in such a request; 18 bytes and the name come before the value. */
  lemma PlacesOf(name: seq<Byte>, v: seq<Byte>, body: seq<Byte>)
    ensures var buf, n := WithField(name, v, body), 16 + |name|;
            var h := n + 2 + |v|;
            && |buf| == h + 4 + |body|
            && (forall j :: 0 <= j < 16 ==> buf[j] == GET_LINE[j])
            && (forall j :: 16 <= j < n ==> buf[j] == name[j - 16])
            && buf[n] == COLON && buf[n + 1] == SPACE
            && (forall j :: n + 2 <= j < h ==> buf[j] == v[j - (n + 2)])
            && buf[h] == CR && buf[h + 1] == LF && buf[h + 2] == CR && buf[h + 3] == LF
            && buf[16..n] == name && buf[n + 2..h] == v && buf[h + 4..] == body && buf[6..11] == HTTP_SLASH
  {
  }

  lemma NoBytes(buf: seq<Byte>, from: nat, end: nat, limit: nat, c: Byte)
    requires from <= end < limit <= |buf| && buf[end] == c && forall j :: from <= j < end ==> buf[j] != c
    ensures FindByte(buf, from, limit, c) == Some(end)
    decreases end - from
  {
    if from < end { NoBytes(buf, from + 1, end, limit, c); }
  }

  lemma HeadEndsThere(name: seq<Byte>, v: seq<Byte>, body: seq<Byte>)
    requires OnOneLine(name, v)
    ensures var buf, h := WithField(name, v, body), 18 + |name| + |v|;
            HeaderEnd(buf, 0) == Some(h) && FindCrlf(buf, 0) == Some(14) && FindCrlf(buf, 16) == Some(h)
  {
    hide HeaderEnd, FindCrlf, WithField;
    PlacesOf(name, v, body);
    var buf, n := WithField(name, v, body), 16 + |name|;
    var h := n + 2 + |v|;
    forall j: nat | j < h ensures buf[j] == CR <==> j == 14 {
      if 16 <= j < n { assert name[j - 16] in name; }
      if n + 2 <= j { assert v[j - (n + 2)] in v; }
    }
    assert EndsHead(buf, h) && forall j: nat :: j < h ==> !EndsHead(buf, j);
    assert HeaderEnd(buf, 0).Some?;
    assert buf[14] == CR && buf[15] == LF;
  }

  lemma LineParsesThere(name: seq<Byte>, v: seq<Byte>, body: seq<Byte>)
    ensures ParseLine(WithField(name, v, body), 14).Some?
  {
    hide FindByte, WithField, ParseMethod, ParseTarget;
    PlacesOf(name, v, body);
    var buf := WithField(name, v, body);
    NoBytes(buf, 0, 3, 14, SPACE);
    NoBytes(buf, 4, 5, 14, SPACE);
  }

  lemma FieldParsesThere(name: seq<Byte>, v: seq<Byte>, body: seq<Byte>)
    requires OnOneLine(name, v)
    ensures ParseHeader(WithField(name, v, body), 16, 18 + |name| + |v|) == Some(Header(name, v))
  {
    hide FindByte, WithField;
    PlacesOf(name, v, body);
    var buf, n := WithField(name, v, body), 16 + |name|;
    forall j: nat | 16 <= j < n ensures buf[j] != COLON { assert name[j - 16] in name; }
    NoBytes(buf, 16, n, n + 2 + |v|, COLON);
    if v != [] { assert buf[n + 2] == v[0]; }
    assert SkipSpaces(buf, n + 2, n + 2 + |v|) == n + 2;
  }

  /** The head of such a request has this one field. */
  lemma OneFieldParses(name: seq<Byte>, v: seq<Byte>, body: seq<Byte>)
    requires OnOneLine(name, v)
    ensures var buf, start := WithField(name, v, body), 22 + |name| + |v|;
            && HasHead(buf) && HeadersOf(buf) == [Header(name, v)] && BodyStart(buf) == start
            && |buf| == start + |body| && buf[start..] == body
  {
    hide HeaderEnd, FindCrlf, WithField, ParseLine, ParseHeader;
    var buf, h := WithField(name, v, body), 18 + |name| + |v|;
    PlacesOf(name, v, body);
    HeadEndsThere(name, v, body);
    LineParsesThere(name, v, body);
    FieldParsesThere(name, v, body);
    var one := [Header(name, v)];
    assert [] + one == one;
    assert ParseHeaders(buf, h + 2, h, one) == Some(one);
    assert ParseHeaders(buf, 16, h, []) == Some(one);
  }

  lemma NumberIsFramed(v: seq<Byte>)
    requires IsNumber(v) && Decimal(v) <= MAX_BODY_SIZE
    ensures FramedByStandard([Header(CONTENT_LENGTH, v)])
  {
    hide StandardLength, FramedByStandard, LengthFields, Decimal, Members;
    NumberSays(v);
    NumberIsMember(v);
    FieldsOfOne(v);
    OneNumberIff([Header(CONTENT_LENGTH, v)]);
  }

  lemma NumberOnOneLine(v: seq<Byte>)
    requires IsNumber(v)
    ensures OnOneLine(CONTENT_LENGTH, v)
  {
  }

  /** So a request with one field whose value is a number up to the limit takes exactly that many bytes. */
  lemma NumberFramesRequest(v: seq<Byte>, body: seq<Byte>, n: nat)
    requires IsNumber(v) && Decimal(v) == n && n <= |body| && n <= MAX_BODY_SIZE
    ensures var r := ParseRequest(WithField(CONTENT_LENGTH, v, body));
            r.Ok? && r.request.body == body[..n] && r.request.consumed == 36 + |v| + n
  {
    hide Decimal, IsNumber, ParseRequest, StandardLength, FramedByStandard, HasHead, HeadersOf, BodyStart, WithField, OnOneLine;
    var buf := WithField(CONTENT_LENGTH, v, body);
    NumberOnOneLine(v);
    OneFieldParses(CONTENT_LENGTH, v, body);
    NumberSays(v);
    NumberIsFramed(v);
    RequestFramedByStandard(buf);
    assert buf[36 + |v|..36 + |v| + n] == buf[36 + |v|..][..n];
  }

  /** And one whose number is 2^64 + 5 takes five bytes. */
  lemma WrappingFramesRequest(body: seq<Byte>)
    requires |body| >= 5
    ensures var r := ParseRequest(WithField(CONTENT_LENGTH, WRAPPING, body));
            r.Ok? && r.request.body == body[..5] && r.request.consumed == 36 + |WRAPPING| + 5
  {
    hide ParseRequest, Decimal, LengthFields, WithField, HeadersOf, HasHead, BodyStart, OnlyDigits, FramedByStandard, LengthValue,
         DigitsAskFor, StandardLength, ReadHeaders;
    var v := WRAPPING;
    var buf, start := WithField(CONTENT_LENGTH, v, body), 36 + |v|;
    Wrapping();
    NumberOnOneLine(v);
    OneFieldParses(CONTENT_LENGTH, v, body);
    NotByStandard();
    NumberSays(v);
    RequestTakes(buf);
    RequestFramedOtherwise(buf);
    assert Takes(buf, 5) by { hide Takes; NotRefused(); }
    assert buf[start..start + 5] == buf[start..][..5];
  }

  lemma NotRefused()
    ensures !Refused([Header(CONTENT_LENGTH, WRAPPING)])
  {
    hide Decimal, OnlyDigits, LengthFields, LengthValue;
    Wrapping();
    FieldsOfOne(WRAPPING);
    LengthMeaning(WRAPPING);
  }

  const CHUNKED: seq<Byte> := [99, 104, 117, 110, 107, 101, 100]

  /** A chunked request: the parser takes nothing behind its head, and the chunks are left. */
  lemma ChunkedRequest(chunks: seq<Byte>)
    ensures var buf := WithField(TRANSFER_ENCODING, CHUNKED, chunks);
            && HasHead(buf) && StandardLength(HeadersOf(buf)) == Coded && !FramedByStandard(HeadersOf(buf))
            && var r := ParseRequest(buf);
               r.Ok? && r.request.body == [] && r.request.consumed <= |buf| && buf[r.request.consumed..] == chunks
  {
    hide ParseRequest, LengthFields, WithField, HeadersOf, HasHead, BodyStart, FramedByStandard, StandardLength;
    var headers := [Header(TRANSFER_ENCODING, CHUNKED)];
    OneFieldParses(TRANSFER_ENCODING, CHUNKED, chunks);
    CodedHeaders(CHUNKED);
    CodedRequest(WithField(TRANSFER_ENCODING, CHUNKED, chunks));
  }

  lemma CodedHeaders(v: seq<Byte>)
    ensures StandardLength([Header(TRANSFER_ENCODING, v)]) == Coded && LengthFields([Header(TRANSFER_ENCODING, v)]) == []
    ensures StandardLength([Header(TRANSFER_ENCODING, v), Header(CONTENT_LENGTH, [53])]) == Coded
  {
    var one, two := [Header(TRANSFER_ENCODING, v)], [Header(TRANSFER_ENCODING, v), Header(CONTENT_LENGTH, [53])];
    assert IsToken(TRANSFER_ENCODING) && IsToken(CONTENT_LENGTH) && |CONTENT_LENGTH| != |TRANSFER_ENCODING|;
    assert SameName(one[0].name, TRANSFER_ENCODING) && SameName(two[0].name, TRANSFER_ENCODING);
    assert one[..0] == [];
    assert HasTransferEncoding(two);
  }

  /** With both fields the parser takes what the Content-Length says, where the Transfer-Encoding decides. */
  lemma CodedWithLength(v: seq<Byte>)
    ensures var headers := [Header(TRANSFER_ENCODING, v), Header(CONTENT_LENGTH, [53])];
            !FramedByStandard(headers) && ReadHeaders(headers).length == 5 && !ReadHeaders(headers).tooLarge
  {
    hide LengthValue, ReadHeaders, StandardLength;
    var headers := [Header(TRANSFER_ENCODING, v), Header(CONTENT_LENGTH, [53])];
    CodedHeaders(v);
    SmallValues();
    assert headers[..1] == [Header(TRANSFER_ENCODING, v)];
    assert LengthFields(headers) == [[53]];
    FramingOfFields(headers);
  }
}
