/** The label-based extractor of `app1.js`: nine fields read out of the OCR
    text by fixed regular expressions, and the page that shows them.

    Each regular expression has one of three shapes, written here as a
    `Pattern`, and is matched by a scanner specific to that shape rather
    than by a general regular-expression engine:
      /<label>(.+?)(?=\n|$)/          a value running to the end of its line;
      /<label>(\d{2}\/\d{2}\/\d{4})/  a date of two, two and four digits;
      /<label>(\d+)/                  a run of digits.
    `String.prototype.match` without the `g` flag reports the match that
    starts leftmost; `Search` finds it and `CaptureAt` says what, if
    anything, matches at one position. */
module LabelExtractor {
  import opened JsText
  import opened ResultPage
  import opened Wrappers

  /** The labels, each with the `": "` the patterns put after it. */
  const FullNameLabel: string := "Full Name: "
  const DobLabel: string := "Date of Birth: "
  const NationalityLabel: string := "Nationality: "
  const IdNumberLabel: string := "Identification Number: "
  const AddressLabel: string := "Address: "
  const CityLabel: string := "City: "
  const PincodeLabel: string := "Pincode/Zip: "
  const CountryLabel: string := "Country: "

  datatype Pattern =
    | LineAfter(literal: string)    // /<label>(.+?)(?=\n|$)/
    | DateAfter(literal: string)    // /<label>(\d{2}\/\d{2}\/\d{4})/
    | DigitsAfter(literal: string)  // /<label>(\d+)/

  /** The object `extractDetailsFromText` builds: every key is always
      present, and a field that was not found holds `''`. */
  datatype Details = Details(
    fullName: string,
    dob: string,
    nationality: string,
    idNumber: string,
    address: string,
    city: string,
    pincode: string,
    country: string,
    issueDate: string)

  /** Ten characters shaped `DD/DD/DDDD`, each D an ASCII digit. */
  predicate IsDateShape(g: string) {
    |g| == 10
    && IsDigit(g[0]) && IsDigit(g[1]) && g[2] == '/'
    && IsDigit(g[3]) && IsDigit(g[4]) && g[5] == '/'
    && IsDigit(g[6]) && IsDigit(g[7]) && IsDigit(g[8]) && IsDigit(g[9])
  }

  /** `trim` leaves a date shape alone. */
  lemma DateShapeTrimmed(g: string)
    requires IsDateShape(g)
    ensures Trim(g) == g
  {
    DigitNotTrimmable(g[0]);
    DigitNotTrimmable(g[9]);
    TrimKeepsTrimmed(g);
  }

  /** A non-empty run of ASCII digits. */
  predicate IsDigits(g: string) {
    g != [] && forall k :: 0 <= k < |g| ==> IsDigit(g[k])
  }

  /** `trim` leaves a run of digits alone. */
  lemma DigitsTrimmed(g: string)
    requires IsDigits(g)
    ensures Trim(g) == g
  {
    DigitNotTrimmable(g[0]);
    DigitNotTrimmable(g[|g| - 1]);
    TrimKeepsTrimmed(g);
  }

  /** The first position at or after `s` that holds a line terminator, or
      the end of the text: how far `.+` can reach from `s`. */
  function LineEnd(text: string, s: nat): (e: nat)
    requires s <= |text|
    ensures s <= e <= |text|
    ensures forall k :: s <= k < e ==> !IsLineTerminator(text[k])
    ensures e == |text| || IsLineTerminator(text[e])
    decreases |text| - s
  {
    if s == |text| || IsLineTerminator(text[s]) then s else LineEnd(text, s + 1)
  }

  /** The first position at or after `s` that does not hold a digit, or the
      end of the text: how far the greedy `\d+` reaches from `s`. */
  function DigitRunEnd(text: string, s: nat): (e: nat)
    requires s <= |text|
    ensures s <= e <= |text|
    ensures forall k :: s <= k < e ==> IsDigit(text[k])
    ensures e == |text| || !IsDigit(text[e])
    decreases |text| - s
  {
    if s == |text| || !IsDigit(text[s]) then s else DigitRunEnd(text, s + 1)
  }

  /** The first capture group when the whole pattern matches starting at
      position `i`, or `None` when it does not match there. */
  function CaptureAt(text: string, p: Pattern, i: nat): (g: Option<string>)
    requires i <= |text|
    ensures g.Some? ==> StartsAt(text, i, p.literal)
    ensures g.Some? ==> var s := i + |p.literal|;
                        g.value != [] && s + |g.value| <= |text| && g.value == text[s..s + |g.value|]
  {
    if !StartsAt(text, i, p.literal) then None
    else
      var s := i + |p.literal|;
      match p
      case LineAfter(_) =>
        var e := LineEnd(text, s);
        if s < e && (e == |text| || text[e] == '\n') then Some(text[s..e]) else None
      case DateAfter(_) =>
        if s + 10 <= |text| && IsDateShape(text[s..s + 10]) then Some(text[s..s + 10]) else None
      case DigitsAfter(_) =>
        var e := DigitRunEnd(text, s);
        if s < e then Some(text[s..e]) else None
  }

  /** A match found at position `at` with first capture group `group`. */
  datatype Found = Found(at: nat, group: string)

  /** The leftmost position at or after `i` where the pattern matches. */
  function Search(text: string, p: Pattern, i: nat): (r: Option<Found>)
    requires i <= |text|
    ensures r.Some? ==> i <= r.value.at <= |text|
                        && CaptureAt(text, p, r.value.at) == Some(r.value.group)
                        && forall j :: i <= j < r.value.at ==> CaptureAt(text, p, j).None?
    ensures r.None? ==> forall j :: i <= j <= |text| ==> CaptureAt(text, p, j).None?
    decreases |text| - i
  {
    match CaptureAt(text, p, i)
    case Some(g) => Some(Found(i, g))
    case None => if i == |text| then None else Search(text, p, i + 1)
  }

  /** The pattern matches at no position of the text. */
  predicate NoMatch(text: string, p: Pattern) {
    forall j :: 0 <= j <= |text| ==> CaptureAt(text, p, j).None?
  }

  /** The leftmost match of the pattern starts at `i`. */
  predicate LeftmostMatchAt(text: string, p: Pattern, i: nat) {
    i <= |text| && CaptureAt(text, p, i).Some?
    && forall j :: 0 <= j < i ==> CaptureAt(text, p, j).None?
  }

  /** `extractPattern`: `text.match(pattern)` without the `g` flag reports
      the leftmost match; the result is `''` when there is none, otherwise
      that match's first capture group with `trim` applied. */
  function ExtractPattern(text: string, p: Pattern): (r: string)
    ensures NoMatch(text, p) ==> r == ""
    ensures forall i :: LeftmostMatchAt(text, p, i) ==> r == Trim(CaptureAt(text, p, i).value)
  {
    match Search(text, p, 0)
    case None => ""
    case Some(f) => Trim(f.group)
  }

  /** `extractDetailsFromText`: each field is read independently of the
      others, so every field has the shape its own pattern allows, and
      `issueDate` is the whole text as it came in, neither cut nor trimmed. */
  function ExtractDetails(text: string): (d: Details)
    ensures d.issueDate == text
    ensures d.dob == "" || IsDateShape(d.dob)
    ensures d.pincode == "" || IsDigits(d.pincode)
    ensures IsLineValue(d.fullName) && IsLineValue(d.nationality) && IsLineValue(d.idNumber)
    ensures IsLineValue(d.address) && IsLineValue(d.city) && IsLineValue(d.country)
  {
    DateValueShape(text, DobLabel);
    DigitsValueShape(text, PincodeLabel);
    LineValueShape(text, FullNameLabel);
    LineValueShape(text, NationalityLabel);
    LineValueShape(text, IdNumberLabel);
    LineValueShape(text, AddressLabel);
    LineValueShape(text, CityLabel);
    LineValueShape(text, CountryLabel);
    Details(
      fullName := ExtractPattern(text, LineAfter(FullNameLabel)),
      dob := ExtractPattern(text, DateAfter(DobLabel)),
      nationality := ExtractPattern(text, LineAfter(NationalityLabel)),
      idNumber := ExtractPattern(text, LineAfter(IdNumberLabel)),
      address := ExtractPattern(text, LineAfter(AddressLabel)),
      city := ExtractPattern(text, LineAfter(CityLabel)),
      pincode := ExtractPattern(text, DigitsAfter(PincodeLabel)),
      country := ExtractPattern(text, LineAfter(CountryLabel)),
      issueDate := text)
  }

  /** The captions of the page's rows, in order. */
  const PageCaptions: seq<string> := ["Full Name", "Date of Birth", "Nationality",
    "Identification Number", "Address", "City", "Pincode/Zip", "Country", "Full Text"]

  /** The values of a record in the order of the page's rows: the last row,
      captioned "Full Text", shows `issueDate`. */
  function FieldsInPageOrder(d: Details): seq<string> {
    [d.fullName, d.dob, d.nationality, d.idNumber, d.address,
     d.city, d.pincode, d.country, d.issueDate]
  }

  /** The rows of the page `app1.js` sends, each showing `value || 'N/A'`:
      one row per field in a fixed order under its own caption, showing the
      field unless it is `''`; a row reads `N/A` exactly when its field is
      `''` or is itself the text `N/A`. */
  function DetailRows(d: Details): (rows: seq<Row>)
    ensures |rows| == 9
    ensures forall k :: 0 <= k < 9 ==> rows[k].caption == PageCaptions[k]
    ensures forall k :: 0 <= k < 9 ==>
              rows[k].shown != "N/A" ==> rows[k].shown == FieldsInPageOrder(d)[k]
    ensures forall k :: 0 <= k < 9 ==>
              (rows[k].shown == "N/A" <==>
                 FieldsInPageOrder(d)[k] == "" || FieldsInPageOrder(d)[k] == "N/A")
  {
    seq(9, k requires 0 <= k < 9 => Row(PageCaptions[k], OrNA(FieldsInPageOrder(d)[k])))
  }

  /** The page for one OCR text: the date-of-birth and postal-code rows read
      `N/A` exactly when nothing was found, and the "Full Text" row shows the
      whole OCR text (or `N/A` when it is empty). */
  function PatternPage(text: string): (rows: seq<Row>)
    ensures |rows| == 9
    ensures rows[1].shown == "N/A" <==> ExtractDetails(text).dob == ""
    ensures rows[6].shown == "N/A" <==> ExtractDetails(text).pincode == ""
    ensures rows[8] == Row("Full Text", OrNA(text))
  {
    DetailRowsShow(ExtractDetails(text));
    DetailRows(ExtractDetails(text))
  }

  // ---------------------------------------------------------------------
  // What the regular expressions mean, stated apart from the scanners.

  /** `(.+?)(?=\n|$)`, started at `s`, can close its group at `e`: at least
      one character, none of them a line terminator, and right after them
      either `\n` or the end of the text. */
  ghost predicate LineGroupEndsAt(text: string, s: nat, e: nat) {
    s < e <= |text|
    && (forall k :: s <= k < e ==> !IsLineTerminator(text[k]))
    && (e == |text| || text[e] == '\n')
  }

  /** `(\d+)`, started at `s`, closes its group at `e`: a non-empty run of
      digits that the greedy `+` cannot extend. */
  ghost predicate DigitGroupEndsAt(text: string, s: nat, e: nat) {
    s < e <= |text|
    && (forall k :: s <= k < e ==> IsDigit(text[k]))
    && (e == |text| || !IsDigit(text[e]))
  }

  /** A group started at `s` can close in at most one place, so the lazy
      `+?` has only one candidate to settle on. */
  lemma LineGroupEndUnique(text: string, s: nat, e1: nat, e2: nat)
    requires LineGroupEndsAt(text, s, e1) && LineGroupEndsAt(text, s, e2)
    ensures e1 == e2
  {
    assert e1 < e2 ==> !IsLineTerminator(text[e1]);
    assert e2 < e1 ==> !IsLineTerminator(text[e2]);
  }

  /** Where the line scanner matches, the label is there and the lazy group
      closes right after what it captures. */
  lemma LineCaptureIsRegexMatch(text: string, lit: string, i: nat)
    requires i <= |text| && CaptureAt(text, LineAfter(lit), i).Some?
    ensures StartsAt(text, i, lit)
    ensures var g := CaptureAt(text, LineAfter(lit), i).value;
            LineGroupEndsAt(text, i + |lit|, i + |lit| + |g|)
            && g == text[i + |lit|..i + |lit| + |g|]
  {
  }

  /** Where the label is followed by a group that can close at `e`, the line
      scanner matches and captures exactly up to `e`. */
  lemma RegexMatchIsLineCapture(text: string, lit: string, i: nat, e: nat)
    requires StartsAt(text, i, lit) && LineGroupEndsAt(text, i + |lit|, e)
    ensures CaptureAt(text, LineAfter(lit), i) == Some(text[i + |lit|..e])
  {
    var s := i + |lit|;
    var e0 := LineEnd(text, s);
    LineGroupEndUnique(text, s, e, e0);
  }

  /** The digit scanner matches at `i` exactly when the label is there and a
      digit follows it. */
  lemma DigitCaptureIsRegexMatch(text: string, lit: string, i: nat)
    requires i <= |text|
    ensures CaptureAt(text, DigitsAfter(lit), i).Some? <==>
              StartsAt(text, i, lit) && i + |lit| < |text| && IsDigit(text[i + |lit|])
  {
  }

  /** Where the label is followed by a run of digits ending at `e` that cannot
      be extended, the digit scanner captures exactly that run. */
  lemma RegexMatchIsDigitCapture(text: string, lit: string, i: nat, e: nat)
    requires StartsAt(text, i, lit) && DigitGroupEndsAt(text, i + |lit|, e)
    ensures CaptureAt(text, DigitsAfter(lit), i) == Some(text[i + |lit|..e])
  {
    var s := i + |lit|;
    var e0 := DigitRunEnd(text, s);
  }

  /** `(\d{2}\/\d{2}\/\d{4})`, started at `s`: ten characters, the third and
      sixth a slash and every other one an ASCII digit. */
  ghost predicate DateGroupAt(text: string, s: nat) {
    s + 10 <= |text|
    && (forall k :: s <= k < s + 10 && k != s + 2 && k != s + 5 ==> IsDigit(text[k]))
    && text[s + 2] == '/' && text[s + 5] == '/'
  }

  /** Where the date scanner matches, the label is there and the date group
      matches the ten characters it captures. */
  lemma DateCaptureIsRegexMatch(text: string, lit: string, i: nat)
    requires i <= |text| && CaptureAt(text, DateAfter(lit), i).Some?
    ensures StartsAt(text, i, lit) && DateGroupAt(text, i + |lit|)
    ensures CaptureAt(text, DateAfter(lit), i).value == text[i + |lit|..i + |lit| + 10]
  {
    var s := i + |lit|;
    var g := text[s..s + 10];
    forall k | s <= k < s + 10 && k != s + 2 && k != s + 5 ensures IsDigit(text[k]) {
      assert text[k] == g[k - s];
    }
    assert text[s + 2] == g[2] && text[s + 5] == g[5];
  }

  /** Where the label is followed by a match of the date group, the date
      scanner captures exactly those ten characters. */
  lemma RegexMatchIsDateCapture(text: string, lit: string, i: nat)
    requires StartsAt(text, i, lit) && DateGroupAt(text, i + |lit|)
    ensures CaptureAt(text, DateAfter(lit), i) == Some(text[i + |lit|..i + |lit| + 10])
  {
    var s := i + |lit|;
    var g := text[s..s + 10];
    assert IsDateShape(g) by {
      forall m | 0 <= m < 10 && m != 2 && m != 5 ensures IsDigit(g[m]) {
        assert g[m] == text[s + m];
      }
      assert g[2] == text[s + 2] && g[5] == text[s + 5];
    }
  }

  // ---------------------------------------------------------------------
  // What the extracted values look like.

  /** What a line field can hold: no line terminator, and no white space
      at either end. */
  predicate IsLineValue(v: string) {
    (forall k :: 0 <= k < |v| ==> !IsLineTerminator(v[k]))
    && (v == [] || (!IsTrimmable(v[0]) && !IsTrimmable(v[|v| - 1])))
  }

  /** A line field never holds a line terminator and never starts or ends
      with white space; a value made only of white space comes out as `''`. */
  lemma LineValueShape(text: string, lit: string)
    ensures IsLineValue(ExtractPattern(text, LineAfter(lit)))
  {
    match Search(text, LineAfter(lit), 0)
    case None =>
    case Some(f) =>
      LineCaptureNoTerminator(text, lit, f.at);
      TrimKeepsNoTerminator(f.group);
  }

  /** What the line scanner captures holds no line terminator. */
  lemma LineCaptureNoTerminator(text: string, lit: string, i: nat)
    requires i <= |text| && CaptureAt(text, LineAfter(lit), i).Some?
    ensures var g := CaptureAt(text, LineAfter(lit), i).value;
            forall k :: 0 <= k < |g| ==> !IsLineTerminator(g[k])
  {
    var g := CaptureAt(text, LineAfter(lit), i).value;
    LineCaptureIsRegexMatch(text, lit, i);
    var s := i + |lit|;
    forall k | 0 <= k < |g| ensures !IsLineTerminator(g[k]) {
      assert g[k] == text[s + k];
    }
  }

  /** The date of birth is `''` or ten characters shaped `DD/DD/DDDD`. */
  lemma DateValueShape(text: string, lit: string)
    ensures var r := ExtractPattern(text, DateAfter(lit));
            r == "" || IsDateShape(r)
  {
    match Search(text, DateAfter(lit), 0)
    case None =>
    case Some(f) => DateShapeTrimmed(f.group);
  }

  /** The postal code is `''` or a non-empty run of ASCII digits. */
  lemma DigitsValueShape(text: string, lit: string)
    ensures var r := ExtractPattern(text, DigitsAfter(lit));
            r == "" || IsDigits(r)
  {
    match Search(text, DigitsAfter(lit), 0)
    case None =>
    case Some(f) => DigitsTrimmed(f.group);
  }

  // ---------------------------------------------------------------------
  // Which occurrence of a label wins.

  /** The pattern matches at no position before `n`: every earlier
      occurrence of the label, if any, is followed by something the pattern
      refuses. */
  predicate NoMatchBefore(text: string, p: Pattern, n: nat) {
    n <= |text| && forall j :: 0 <= j < n ==> CaptureAt(text, p, j).None?
  }

  /** A value with no line terminator after an occurrence of a line label,
      followed by `\n` or the end, is what the scanner captures there. */
  lemma LineCaptureAtOccurrence(pre: string, lit: string, v: string, rest: string)
    requires v != [] && forall k :: 0 <= k < |v| ==> !IsLineTerminator(v[k])
    requires rest == [] || rest[0] == '\n'
    ensures CaptureAt(pre + lit + v + rest, LineAfter(lit), |pre|) == Some(v)
  {
    var text := pre + lit + v + rest;
    var i := |pre|;
    var s := i + |lit|;
    assert StartsAt(text, i, lit) by { assert text[i..s] == lit; }
    assert text[s..s + |v|] == v;
    assert LineGroupEndsAt(text, s, s + |v|) by {
      forall k | s <= k < s + |v| ensures !IsLineTerminator(text[k]) {
        assert text[k] == v[k - s];
      }
      if s + |v| < |text| { assert text[s + |v|] == rest[0]; }
    }
    RegexMatchIsLineCapture(text, lit, i, s + |v|);
  }

  /** An occurrence of a label, followed by a value with no line terminator
      and then `\n` or the end of the text, gives the field, provided no
      earlier occurrence is followed by a value the pattern accepts. */
  lemma LineValueFromFirstMatch(pre: string, lit: string, v: string, rest: string)
    requires NoMatchBefore(pre + lit + v + rest, LineAfter(lit), |pre|)
    requires v != [] && forall k :: 0 <= k < |v| ==> !IsLineTerminator(v[k])
    requires rest == [] || rest[0] == '\n'
    ensures ExtractPattern(pre + lit + v + rest, LineAfter(lit)) == Trim(v)
  {
    var text := pre + lit + v + rest;
    var i := |pre|;
    LineCaptureAtOccurrence(pre, lit, v, rest);
    assert LeftmostMatchAt(text, LineAfter(lit), i);
  }

  /** The first matching occurrence of a label, followed by nothing but
      white space up to the end of its line, gives `''`. */
  lemma BlankValueFromFirstMatch(pre: string, lit: string, v: string, rest: string)
    requires NoMatchBefore(pre + lit + v + rest, LineAfter(lit), |pre|)
    requires v != [] && forall k :: 0 <= k < |v| ==> IsWhiteSpace(v[k])
    requires rest == [] || rest[0] == '\n'
    ensures ExtractPattern(pre + lit + v + rest, LineAfter(lit)) == ""
  {
    LineValueFromFirstMatch(pre, lit, v, rest);
    TrimAllTrimmable(v);
  }

  /** An occurrence of a label followed directly by `\n` is passed over. */
  lemma EmptyLineSkipped(text: string, lit: string, i: nat)
    requires StartsAt(text, i, lit) && StartsAt(text, i + |lit|, "\n")
    ensures CaptureAt(text, LineAfter(lit), i).None?
  {
    assert text[i + |lit|] == '\n';
  }

  /** An occurrence of a label whose value ends in `\r` (a CR LF line end)
      is passed over: `.` cannot cross the `\r`, and the look-ahead wants `\n`. */
  lemma CarriageReturnLineSkipped(text: string, lit: string, i: nat, v: string)
    requires StartsAt(text, i, lit) && StartsAt(text, i + |lit|, v + "\r")
    requires forall k :: 0 <= k < |v| ==> !IsLineTerminator(v[k])
    ensures CaptureAt(text, LineAfter(lit), i).None?
  {
    var s := i + |lit|;
    assert text[s..s + |v| + 1] == v + "\r";
    assert text[s + |v|] == '\r';
    forall k | s <= k < s + |v| ensures !IsLineTerminator(text[k]) {
      assert text[k] == (v + "\r")[k - s];
    }
    if CaptureAt(text, LineAfter(lit), i).Some? {
      LineCaptureIsRegexMatch(text, lit, i);
    }
  }

  /** The first matching occurrence of a date label, followed by a date
      shape, gives the date; whatever follows the four-digit year is neither
      needed nor kept. */
  lemma DateValueFromFirstMatch(pre: string, lit: string, d: string, rest: string)
    requires NoMatchBefore(pre + lit + d + rest, DateAfter(lit), |pre|)
    requires IsDateShape(d)
    ensures ExtractPattern(pre + lit + d + rest, DateAfter(lit)) == d
  {
    var text := pre + lit + d + rest;
    var i := |pre|;
    assert text[i..i + |lit|] == lit;
    assert text[i + |lit|..i + |lit| + 10] == d;
    assert CaptureAt(text, DateAfter(lit), i) == Some(d);
    assert LeftmostMatchAt(text, DateAfter(lit), i);
    DateShapeTrimmed(d);
  }

  /** A run of digits after an occurrence of a digits label, stopping at a
      non-digit or at the end, is what the scanner captures there. */
  lemma DigitsCaptureAtOccurrence(pre: string, lit: string, digits: string, rest: string)
    requires IsDigits(digits)
    requires rest == [] || !IsDigit(rest[0])
    ensures CaptureAt(pre + lit + digits + rest, DigitsAfter(lit), |pre|) == Some(digits)
  {
    var text := pre + lit + digits + rest;
    var i := |pre|;
    var s := i + |lit|;
    assert StartsAt(text, i, lit) by { assert text[i..s] == lit; }
    assert text[s..s + |digits|] == digits;
    assert DigitGroupEndsAt(text, s, s + |digits|) by {
      forall k | s <= k < s + |digits| ensures IsDigit(text[k]) {
        assert text[k] == digits[k - s];
      }
      if s + |digits| < |text| { assert text[s + |digits|] == rest[0]; }
    }
    RegexMatchIsDigitCapture(text, lit, i, s + |digits|);
  }

  /** The first matching occurrence of a digits label, followed by a run of
      digits that stops at a non-digit or at the end, gives that run. */
  lemma DigitsValueFromFirstMatch(pre: string, lit: string, digits: string, rest: string)
    requires NoMatchBefore(pre + lit + digits + rest, DigitsAfter(lit), |pre|)
    requires IsDigits(digits)
    requires rest == [] || !IsDigit(rest[0])
    ensures ExtractPattern(pre + lit + digits + rest, DigitsAfter(lit)) == digits
  {
    var text := pre + lit + digits + rest;
    var i := |pre|;
    DigitsCaptureAtOccurrence(pre, lit, digits, rest);
    assert LeftmostMatchAt(text, DigitsAfter(lit), i);
    DigitsTrimmed(digits);
  }

  /** "Date of Birth: 07/04/19901" gives "07/04/1990". */
  lemma DateExampleExtraDigit()
    ensures ExtractDetails("Date of Birth: 07/04/19901").dob == "07/04/1990"
  {
    assert "Date of Birth: 07/04/19901" == "" + DobLabel + "07/04/1990" + "1";
    DateValueFromFirstMatch("", DobLabel, "07/04/1990", "1");
  }

  /** "Pincode/Zip: 94107abc" gives "94107". */
  lemma PincodeExampleTrailingLetters()
    ensures ExtractDetails("Pincode/Zip: 94107abc").pincode == "94107"
  {
    assert "Pincode/Zip: 94107abc" == "" + PincodeLabel + "94107" + "abc";
    DigitsValueFromFirstMatch("", PincodeLabel, "94107", "abc");
  }

  /** "Date of Birth: x\nDate of Birth: 07/04/1990" gives "07/04/1990": the
      first occurrence of the label is not followed by a date, so the second
      one is used. */
  lemma DateExampleLaterOccurrence()
    ensures ExtractDetails("Date of Birth: x\nDate of Birth: 07/04/1990").dob == "07/04/1990"
  {
    var pre := "Date of Birth: x\n";
    var text := pre + DobLabel + "07/04/1990" + "";
    assert text == "Date of Birth: x\nDate of Birth: 07/04/1990";
    assert !IsDigit(text[|DobLabel|]);
    forall j | 0 < j < |pre| ensures !StartsAt(text, j, DobLabel) {
      assert text[j] != DobLabel[0];
    }
    DateValueFromFirstMatch(pre, DobLabel, "07/04/1990", "");
  }

  /** A label ending in a space occurs nowhere after the start of
      `lit + tail` when `tail` has no space. */
  lemma LabelOnlyAtStart(lit: string, tail: string, j: nat)
    requires lit != [] && lit[|lit| - 1] == ' ' && ' ' !in tail
    requires 0 < j
    ensures !StartsAt(lit + tail, j, lit)
  {
    var text := lit + tail;
    if j + |lit| <= |text| {
      assert text[j + |lit| - 1] == tail[j - 1];
      assert text[j..j + |lit|][|lit| - 1] != lit[|lit| - 1];
    }
  }

  /** "Date of Birth: notadate" gives `''`: the one occurrence of the label
      is not followed by a date. */
  lemma DateExampleNotADate()
    ensures ExtractDetails("Date of Birth: notadate").dob == ""
  {
    var text := "Date of Birth: notadate";
    assert text == DobLabel + "notadate";
    forall j | 0 <= j <= |text| ensures CaptureAt(text, DateAfter(DobLabel), j).None? {
      if 0 < j { LabelOnlyAtStart(DobLabel, "notadate", j); }
    }
    assert NoMatch(text, DateAfter(DobLabel));
  }

  /** "Pincode/Zip: abc" gives `''`: the one occurrence of the label is not
      followed by a digit. */
  lemma PincodeExampleLetters()
    ensures ExtractDetails("Pincode/Zip: abc").pincode == ""
  {
    var text := "Pincode/Zip: abc";
    assert text == PincodeLabel + "abc";
    forall j | 0 <= j <= |text| ensures CaptureAt(text, DigitsAfter(PincodeLabel), j).None? {
      if 0 < j { LabelOnlyAtStart(PincodeLabel, "abc", j); }
    }
    assert NoMatch(text, DigitsAfter(PincodeLabel));
  }

  // ---------------------------------------------------------------------
  // The page.

  /** Dates of birth and postal codes of the shapes the patterns accept are
      never the text `N/A`, so those two rows read `N/A` exactly when
      nothing was found. */
  lemma DetailRowsShow(d: Details)
    requires d.dob == "" || IsDateShape(d.dob)
    requires d.pincode == "" || IsDigits(d.pincode)
    ensures DetailRows(d)[1].shown == "N/A" <==> d.dob == ""
    ensures DetailRows(d)[6].shown == "N/A" <==> d.pincode == ""
  {
    assert FieldsInPageOrder(d)[1] == d.dob && FieldsInPageOrder(d)[6] == d.pincode;
    assert !IsDigits("N/A") by { assert !IsDigit("N/A"[0]); }
  }
}
