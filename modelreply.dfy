/** The model-assisted extractor of `app.js`: the instruction sent to the
    language model, the removal of a Markdown fence from its reply, and the
    choice between a page of eight fields and the bare reply.

    The model call itself and `JSON.parse` are outside the model: the reply
    is an arbitrary string, and `JSON.parse` is a function given as a
    parameter whose result is a `ParseResult`. */
module ModelReply {
  import opened JsText
  import opened ResultPage
  import opened Wrappers

  // ---------------------------------------------------------------------
  // The instruction.

  /** The template text the OCR text is appended to, with its line breaks
      and its eighteen-space indentation. */
  const PromptPrefix: string :=
    "Extract details from the given image extracted text.\n"
    + "                  Instructions:\n"
    + "                  Full Name, Date of Birth (MM/DD/YYYY), Nationality, Identification Number, Address, City, Pincode/Zip, Country, Issue Date.\n"
    + "                  If not found, return an empty string.\n"
    + "                  Output should be in JSON format.\n"
    + "                  this is the text: "

  /** The system message: the fixed template followed by the OCR text as it
      is. */
  function Prompt(text: string): (r: string)
    ensures |r| == |PromptPrefix| + |text|
    ensures r[..|PromptPrefix|] == PromptPrefix
    ensures r[|PromptPrefix|..] == text
  {
    PromptPrefix + text
  }

  /** The instruction depends on the OCR text alone and gives it back: two
      texts give the same instruction only when they are equal. */
  lemma PromptInjective(a: string, b: string)
    requires Prompt(a) == Prompt(b)
    ensures a == b
  {
    assert a == Prompt(a)[|PromptPrefix|..];
  }

  // ---------------------------------------------------------------------
  // Removing the fence: rawData.replace(/^```json\n|\n```$/, '').

  /** The opening fence the first alternative matches, anchored at the start. */
  const JsonOpen: string := "```json\n"
  /** The closing fence the second alternative matches, anchored at the end. */
  const FenceClose: string := "\n```"

  /** `s` ends with the literal `lit`. */
  predicate EndsWith(s: string, lit: string) {
    |lit| <= |s| && StartsAt(s, |s| - |lit|, lit)
  }

  /** The length of the match of /^```json\n|\n```$/ starting at `i`, the
      first alternative tried first, or `None` when neither matches there. */
  function FenceAt(reply: string, i: nat): (r: Option<nat>)
    requires i <= |reply|
    ensures r.Some? ==> i + r.value <= |reply|
    ensures r == Some(|JsonOpen|) ==> i == 0 && StartsAt(reply, 0, JsonOpen)
    ensures r == Some(|FenceClose|) ==> StartsAt(reply, i, FenceClose) && i + |FenceClose| == |reply|
    ensures r.Some? ==> r.value == |JsonOpen| || r.value == |FenceClose|
    ensures r.None? <==> !(i == 0 && StartsAt(reply, 0, JsonOpen))
                         && !(StartsAt(reply, i, FenceClose) && i + |FenceClose| == |reply|)
  {
    if i == 0 && StartsAt(reply, 0, JsonOpen) then Some(|JsonOpen|)
    else if StartsAt(reply, i, FenceClose) && i + |FenceClose| == |reply| then Some(|FenceClose|)
    else None
  }

  /** The leftmost match at or after `i`, as a start and a length. */
  function FirstFence(reply: string, i: nat): (r: Option<(nat, nat)>)
    requires i <= |reply|
    ensures r.Some? ==> i <= r.value.0 && r.value.0 + r.value.1 <= |reply|
                        && FenceAt(reply, r.value.0) == Some(r.value.1)
                        && forall j :: i <= j < r.value.0 ==> FenceAt(reply, j).None?
    ensures r.None? ==> forall j :: i <= j <= |reply| ==> FenceAt(reply, j).None?
    decreases |reply| - i
  {
    match FenceAt(reply, i)
    case Some(n) => Some((i, n))
    case None => if i == |reply| then None else FirstFence(reply, i + 1)
  }

  /** Where the leftmost match lies: an opening ```` ```json\n ```` wins; failing
      that, a closing ```` \n``` ```` at the very end; otherwise there is none. */
  lemma FirstFenceCases(reply: string)
    ensures StartsAt(reply, 0, JsonOpen) ==>
              FirstFence(reply, 0).Some? && FirstFence(reply, 0).value.0 == 0
              && FirstFence(reply, 0).value.1 == |JsonOpen|
    ensures !StartsAt(reply, 0, JsonOpen) && EndsWith(reply, FenceClose) ==>
              FirstFence(reply, 0).Some? && FirstFence(reply, 0).value.0 == |reply| - |FenceClose|
              && FirstFence(reply, 0).value.1 == |FenceClose|
    ensures !StartsAt(reply, 0, JsonOpen) && !EndsWith(reply, FenceClose) ==>
              FirstFence(reply, 0).None?
  {
    if StartsAt(reply, 0, JsonOpen) {
      assert FenceAt(reply, 0) == Some(|JsonOpen|);
    } else if EndsWith(reply, FenceClose) {
      FirstFenceIsClosing(reply, 0);
    } else {
      NoFenceAnywhere(reply);
    }
  }

  /** Without an opening fence, a closing fence at the end is the leftmost
      match from any position `j` before it: nothing in between matches. */
  lemma {:induction false} FirstFenceIsClosing(reply: string, j: nat)
    requires !StartsAt(reply, 0, JsonOpen) && EndsWith(reply, FenceClose)
    requires j <= |reply| - |FenceClose|
    ensures FirstFence(reply, j).Some? && FirstFence(reply, j).value.0 == |reply| - |FenceClose|
            && FirstFence(reply, j).value.1 == |FenceClose|
    decreases |reply| - j
  {
    if j < |reply| - |FenceClose| {
      assert FenceAt(reply, j).None?;
      FirstFenceIsClosing(reply, j + 1);
    } else {
      assert FenceAt(reply, j) == Some(|FenceClose|);
    }
  }

  /** Without either fence the pattern matches nowhere. */
  lemma NoFenceAnywhere(reply: string)
    requires !StartsAt(reply, 0, JsonOpen) && !EndsWith(reply, FenceClose)
    ensures FirstFence(reply, 0).None?
  {
    forall j | 0 <= j <= |reply| ensures FenceAt(reply, j).None? {
      assert !(StartsAt(reply, j, FenceClose) && j + |FenceClose| == |reply|);
    }
  }

  /** `replace` without the `g` flag: the first match, if any, is cut out and
      nothing else is touched. So a leading ```` ```json\n ```` loses its
      eight characters; failing that, a trailing ```` \n``` ```` loses its
      four; otherwise the reply is unchanged. At most one fence is removed. */
  function StripFence(reply: string): (r: string)
    ensures StartsAt(reply, 0, JsonOpen) ==> r == reply[|JsonOpen|..]
    ensures !StartsAt(reply, 0, JsonOpen) && EndsWith(reply, FenceClose) ==>
              r == reply[..|reply| - |FenceClose|]
    ensures !StartsAt(reply, 0, JsonOpen) && !EndsWith(reply, FenceClose) ==> r == reply
  {
    FirstFenceCases(reply);
    match FirstFence(reply, 0)
    case None => reply
    case Some((i, n)) => reply[..i] + reply[i + n..]
  }

  /** The stripped reply is a prefix or a suffix of the reply, and exactly
      0, 4 or 8 characters shorter. */
  lemma StripFenceBounds(reply: string)
    ensures var r := StripFence(reply);
            (r == reply[..|r|] || r == reply[|reply| - |r|..])
            && (|reply| - |r| == 0 || |reply| - |r| == 4 || |reply| - |r| == 8)
  {
  }

  /** A reply that neither starts nor ends with a backtick is left alone. */
  lemma UnfencedReplyUnchanged(reply: string)
    requires reply != [] && reply[0] != '`' && reply[|reply| - 1] != '`'
    ensures StripFence(reply) == reply
  {
    assert !StartsAt(reply, 0, JsonOpen) by {
      if |JsonOpen| <= |reply| { assert reply[..|JsonOpen|][0] == reply[0]; }
    }
    assert !EndsWith(reply, FenceClose) by {
      if |FenceClose| <= |reply| {
        assert reply[|reply| - |FenceClose|..|reply|][|FenceClose| - 1] == reply[|reply| - 1];
      }
    }
  }

  /** A reply fenced on both sides keeps its closing fence: the comment at
      the call claims both fences go, the expression removes only one. */
  lemma FullyFencedKeepsClosingFence(body: string)
    ensures StripFence(JsonOpen + body + FenceClose) == body + FenceClose
  {
    var reply := JsonOpen + body + FenceClose;
    assert reply[..|JsonOpen|] == JsonOpen;
    assert reply[|JsonOpen|..] == body + FenceClose;
  }

  // ---------------------------------------------------------------------
  // What `JSON.parse` hands back.

  /** A parsed JSON value. A number is carried as the text JavaScript's
      `ToString` gives it (both zeros print as "0"); only such texts are
      meaningful numerals, and every statement below about numbers is about
      them (`Truthy` treats exactly the numeral "0" as falsy). */
  datatype JsonValue =
    | JNull
    | JBool(b: bool)
    | JNumber(numeral: string)
    | JString(str: string)
    | JArray(items: seq<JsonValue>)
    | JObject(members: map<string, JsonValue>)

  /** `JSON.parse` either throws a `SyntaxError` or returns a value. */
  datatype ParseResult = SyntaxError | Parsed(value: JsonValue)

  /** JavaScript truthiness of a parsed value: `null`, `false`, `0` and `''`
      are falsy; arrays and objects are truthy even when empty. */
  function Truthy(v: JsonValue): (b: bool)
    ensures !b <==> v == JNull || v == JBool(false) || v == JNumber("0") || v == JString("")
  {
    match v
    case JNull => false
    case JBool(b) => b
    case JNumber(n) => n != "0"
    case JString(s) => s != ""
    case JArray(_) => true
    case JObject(_) => true
  }

  /** `v[key]` on a value that is not `null`: an object's own member, and
      `undefined` (`None`) for everything else, since none of the keys read
      is an array index or a built-in property. */
  function Lookup(v: JsonValue, key: string): (r: Option<JsonValue>)
    ensures r.Some? <==> v.JObject? && key in v.members
    ensures r.Some? ==> r.value == v.members[key]
  {
    match v
    case JObject(m) => if key in m then Some(m[key]) else None
    case _ => None
  }

  /** Turning `v` into text throws: it is an object with its own `toString`
      member, or an array with such a value among its elements, at any
      depth. */
  ghost predicate ThrowsWhenShown(v: JsonValue)
    decreases v
  {
    match v
    case JObject(m) => "toString" in m
    case JArray(items) => exists k :: 0 <= k < |items| && ThrowsWhenShown(items[k])
    case _ => false
  }

  /** What `${v}` makes of a value; `None` when the conversion throws a
      `TypeError`. That happens for an object with its own `toString`
      member, and for an array holding one: parsed data is never callable,
      so `toString` and `valueOf` cannot give a primitive. An array is
      joined with commas, `null` elements as empty strings. */
  function ToJsString(v: JsonValue): (r: Option<string>)
    ensures r.None? <==> ThrowsWhenShown(v)
    ensures v.JString? ==> r == Some(v.str)
    decreases v
  {
    match v
    case JNull => Some("null")
    case JBool(b) => Some(if b then "true" else "false")
    case JNumber(n) => Some(n)
    case JString(s) => Some(s)
    case JArray(items) => JoinItems(items)
    case JObject(m) => if "toString" in m then None else Some("[object Object]")
  }

  /** `Array.prototype.join` with `","` on the elements of an array: it
      throws exactly when one of the elements does. */
  function JoinItems(items: seq<JsonValue>): (r: Option<string>)
    ensures r.None? <==> exists k :: 0 <= k < |items| && ThrowsWhenShown(items[k])
    decreases items
  {
    if items == [] then Some("")
    else
      assert forall k :: 1 <= k < |items| ==> items[1..][k - 1] == items[k];
      var head := if items[0] == JNull then Some("") else ToJsString(items[0]);
      if |items| == 1 then head
      else match (head, JoinItems(items[1..]))
        case (Some(h), Some(t)) => Some(h + "," + t)
        case _ => None
  }

  /** `v[key] || 'N/A'` put into the page: `N/A` for a missing or falsy
      member, the member's string form otherwise (`None` if that throws). */
  function ShownValue(slot: Option<JsonValue>): (r: Option<string>)
    ensures slot.None? || !Truthy(slot.value) ==> r == Some("N/A")
    ensures slot.Some? && Truthy(slot.value) ==> (r.None? <==> ThrowsWhenShown(slot.value))
    ensures slot.Some? && slot.value.JString? ==> r == Some(OrNA(slot.value.str))
  {
    if slot.None? || !Truthy(slot.value) then Some("N/A") else ToJsString(slot.value)
  }

  /** A truthy number is shown as its numeral. */
  lemma ShownNumber(n: string)
    requires n != "0"
    ensures ShownValue(Some(JNumber(n))) == Some(n)
  { }

  /** `true` is shown as "true" and `false`, being falsy, as `N/A`. */
  lemma ShownBoolean(b: bool)
    ensures ShownValue(Some(JBool(b))) == Some(if b then "true" else "N/A")
  { }

  /** An object without its own `toString` is shown as "[object Object]". */
  lemma ShownPlainObject(m: map<string, JsonValue>)
    requires "toString" !in m
    ensures ShownValue(Some(JObject(m))) == Some("[object Object]")
  { }

  /** The parsed array of the given strings. */
  function StringItems(ss: seq<string>): (items: seq<JsonValue>)
    ensures |items| == |ss|
    ensures forall k :: 0 <= k < |ss| ==> items[k] == JString(ss[k])
  {
    if ss == [] then [] else [JString(ss[0])] + StringItems(ss[1..])
  }

  /** The strings separated by commas, built from the last one back: a
      reference for `join(",")` independent of `JoinItems`. */
  function CommaJoined(ss: seq<string>): string {
    if ss == [] then ""
    else if |ss| == 1 then ss[0]
    else CommaJoined(ss[..|ss| - 1]) + "," + ss[|ss| - 1]
  }

  /** Joining from the front gives the same text as joining from the back. */
  lemma {:induction false} CommaJoinedFront(ss: seq<string>)
    requires |ss| >= 2
    ensures CommaJoined(ss) == ss[0] + "," + CommaJoined(ss[1..])
    decreases |ss|
  {
    var n := |ss|;
    if n == 2 {
      assert ss[..1] == [ss[0]] && ss[1..] == [ss[1]];
    } else {
      CommaJoinedFront(ss[..n - 1]);
      assert ss[..n - 1][1..] == ss[1..][..n - 2];
      assert ss[..n - 1][0] == ss[0] && ss[1..][n - 2] == ss[n - 1];
    }
  }

  /** An array of strings is shown as the strings joined with commas (an
      empty array, being truthy, as `''`). */
  lemma {:induction false} ShownStringArray(ss: seq<string>)
    ensures ShownValue(Some(JArray(StringItems(ss)))) == Some(CommaJoined(ss))
    decreases |ss|
  {
    if |ss| >= 2 {
      var items := StringItems(ss);
      ShownStringArray(ss[1..]);
      CommaJoinedFront(ss);
      assert items[1..] == StringItems(ss[1..]);
      assert JoinItems(items[1..]) == Some(CommaJoined(ss[1..]));
      assert JoinItems(items) == Some(ss[0] + "," + CommaJoined(ss[1..]));
    } else if |ss| == 1 {
      assert StringItems(ss) == [JString(ss[0])];
      assert ToJsString(JString(ss[0])) == Some(ss[0]);
      assert JoinItems([JString(ss[0])]) == Some(ss[0]);
    } else {
      assert StringItems(ss) == [];
    }
  }

  // ---------------------------------------------------------------------
  // The response.

  /** The eight keys the page reads, in row order. "Issue Date" is asked
      for in the instruction but never read. */
  const ReplyKeys: seq<string> := ["Full Name", "Date of Birth", "Nationality",
    "Identification Number", "Address", "City", "Pincode/Zip", "Country"]

  /** What is sent back: the HTML page as its rows, or the stripped reply on
      its own. */
  datatype Response = Page(rows: seq<Row>) | Bare(body: string)

  /** One row per key, or `None` when showing any of them throws: the rows
      are built for every key or for none, and row `k` shows key `k` under
      its own name. */
  function ShownRows(v: JsonValue, keys: seq<string>): (r: Option<seq<Row>>)
    ensures r.Some? <==> forall k :: 0 <= k < |keys| ==> ShownValue(Lookup(v, keys[k])).Some?
    ensures r.Some? ==>
              |r.value| == |keys|
              && forall k :: 0 <= k < |keys| ==>
                   r.value[k] == Row(keys[k], ShownValue(Lookup(v, keys[k])).value)
  {
    if keys == [] then Some([])
    else
      assert forall k :: 1 <= k < |keys| ==> keys[1..][k - 1] == keys[k];
      match (ShownValue(Lookup(v, keys[0])), ShownRows(v, keys[1..]))
      case (Some(s), Some(rest)) => Some([Row(keys[0], s)] + rest)
      case _ => None
  }

  /** The `try`/`catch` of the handler: a parse error, a `null` result (on
      which `["Full Name"]` throws) or a value that throws while being
      shown sends the stripped reply alone; otherwise the page has the
      eight rows and a "Full Text" row with the stripped reply. */
  function Respond(parsed: ParseResult, jsonString: string): (r: Response)
    ensures parsed == SyntaxError || parsed == Parsed(JNull) ==> r == Bare(jsonString)
    ensures r == Bare(jsonString)
            || (r.Page? && |r.rows| == 9 && r.rows[8] == Row("Full Text", jsonString))
  {
    match parsed
    case SyntaxError => Bare(jsonString)
    case Parsed(v) =>
      if v == JNull then Bare(jsonString)
      else match ShownRows(v, ReplyKeys)
        case None => Bare(jsonString)
        case Some(rows) => Page(rows + [Row("Full Text", jsonString)])
  }

  /** The handler after the model has replied: strip, parse, respond. A
      reply `JSON.parse` rejects once stripped comes back stripped, and
      nothing is raised; either way the stripped reply reaches the user. */
  function HandleReply(reply: string, jsonParse: string -> ParseResult): (r: Response)
    ensures jsonParse(StripFence(reply)) == SyntaxError ==> r == Bare(StripFence(reply))
    ensures r == Bare(StripFence(reply))
            || (r.Page? && |r.rows| == 9 && r.rows[8] == Row("Full Text", StripFence(reply)))
  {
    var jsonString := StripFence(reply);
    Respond(jsonParse(jsonString), jsonString)
  }

  // ---------------------------------------------------------------------
  // What the response holds.

  /** A parsed value gives the page exactly when it is not `null` and none of
      the eight values throws while being shown; row `k` then shows the value
      under key `k` (or `N/A`), and the last row the stripped reply. */
  lemma ParsedValuePage(v: JsonValue, jsonString: string)
    ensures Respond(Parsed(v), jsonString).Page? <==>
              v != JNull && forall k :: 0 <= k < 8 ==> ShownValue(Lookup(v, ReplyKeys[k])).Some?
    ensures Respond(Parsed(v), jsonString).Page? ==>
              var rows := Respond(Parsed(v), jsonString).rows;
              |rows| == 9
              && (forall k :: 0 <= k < 8 ==>
                    rows[k] == Row(ReplyKeys[k], ShownValue(Lookup(v, ReplyKeys[k])).value))
              && rows[8] == Row("Full Text", jsonString)
  {
  }

  /** Rows built from two values that agree on every key read are equal. */
  lemma {:induction false} ShownRowsAgree(v1: JsonValue, v2: JsonValue, keys: seq<string>)
    requires forall k :: 0 <= k < |keys| ==> Lookup(v1, keys[k]) == Lookup(v2, keys[k])
    ensures ShownRows(v1, keys) == ShownRows(v2, keys)
  {
    if keys != [] {
      assert Lookup(v1, keys[0]) == Lookup(v2, keys[0]);
      ShownRowsAgree(v1, v2, keys[1..]);
    }
  }

  /** Keys other than the eight are ignored: objects that agree on the eight
      keys give the same response. */
  lemma UnknownKeysIgnored(m1: map<string, JsonValue>, m2: map<string, JsonValue>, jsonString: string)
    requires forall key :: key in ReplyKeys ==>
               (key in m1 <==> key in m2) && (key in m1 ==> m1[key] == m2[key])
    ensures Respond(Parsed(JObject(m1)), jsonString) == Respond(Parsed(JObject(m2)), jsonString)
  {
    forall k | 0 <= k < |ReplyKeys|
      ensures Lookup(JObject(m1), ReplyKeys[k]) == Lookup(JObject(m2), ReplyKeys[k])
    {
      assert ReplyKeys[k] in ReplyKeys;
    }
    ShownRowsAgree(JObject(m1), JObject(m2), ReplyKeys);
  }

  /** The issue date the instruction asks for is never read: no row is
      captioned with it, and its value changes nothing. */
  lemma IssueDateNeverShown(m: map<string, JsonValue>, x: JsonValue, jsonString: string)
    ensures "Issue Date" !in ReplyKeys
    ensures Respond(Parsed(JObject(m["Issue Date" := x])), jsonString)
            == Respond(Parsed(JObject(m - {"Issue Date"})), jsonString)
  {
    UnknownKeysIgnored(m["Issue Date" := x], m - {"Issue Date"}, jsonString);
  }

  /** An object holding only a full name: that row shows it, the seven other
      fields show `N/A`. */
  lemma FullNameOnlyExample(jsonString: string)
    ensures var r := Respond(Parsed(JObject(map["Full Name" := JString("Jane Doe")])), jsonString);
            r.Page? && |r.rows| == 9
            && r.rows[0] == Row("Full Name", "Jane Doe")
            && (forall k :: 1 <= k < 8 ==> r.rows[k] == Row(ReplyKeys[k], "N/A"))
            && r.rows[8] == Row("Full Text", jsonString)
  {
    OnlyFullNamePresent();
    FullNameOnlyRows(map["Full Name" := JString("Jane Doe")], "Jane Doe", jsonString);
  }

  /** Any object whose only member among the eight keys is a non-empty
      full name `n`: that row shows `n`, the seven others `N/A`. */
  lemma FullNameOnlyRows(m: map<string, JsonValue>, n: string, jsonString: string)
    requires n != ""
    requires Lookup(JObject(m), ReplyKeys[0]) == Some(JString(n))
    requires forall k :: 1 <= k < 8 ==> Lookup(JObject(m), ReplyKeys[k]) == None
    ensures var r := Respond(Parsed(JObject(m)), jsonString);
            r.Page? && |r.rows| == 9
            && r.rows[0] == Row("Full Name", n)
            && (forall k :: 1 <= k < 8 ==> r.rows[k] == Row(ReplyKeys[k], "N/A"))
            && r.rows[8] == Row("Full Text", jsonString)
  {
    ParsedValuePage(JObject(m), jsonString);
  }

  /** Of the eight keys, only the first is a member of that object. */
  lemma OnlyFullNamePresent()
    ensures Lookup(JObject(map["Full Name" := JString("Jane Doe")]), ReplyKeys[0]) == Some(JString("Jane Doe"))
    ensures forall k :: 1 <= k < 8 ==>
              Lookup(JObject(map["Full Name" := JString("Jane Doe")]), ReplyKeys[k]) == None
  {
    forall k | 1 <= k < 8 ensures ReplyKeys[k] != "Full Name" {
      assert ReplyKeys[k][0] != 'F';
    }
  }

  // ---------------------------------------------------------------------
  // The handler as a whole.

  /** A reply with neither fence that `JSON.parse` rejects comes back
      exactly as the model wrote it. */
  lemma PlainReplyComesBackVerbatim(reply: string, jsonParse: string -> ParseResult)
    requires !StartsAt(reply, 0, JsonOpen) && !EndsWith(reply, FenceClose)
    requires jsonParse(reply) == SyntaxError
    ensures HandleReply(reply, jsonParse) == Bare(reply)
  {
  }

  /** "I could not read this document", rejected by `JSON.parse`, comes back
      verbatim. */
  lemma PlainReplyExample(jsonParse: string -> ParseResult)
    requires jsonParse("I could not read this document") == SyntaxError
    ensures HandleReply("I could not read this document", jsonParse)
            == Bare("I could not read this document")
  {
    UnfencedReplyUnchanged("I could not read this document");
    PlainReplyComesBackVerbatim("I could not read this document", jsonParse);
  }

  /** A reply fenced on both sides is parsed, and shown, with its closing
      fence still attached. */
  lemma FencedReplyParsedWithClosingFence(body: string, jsonParse: string -> ParseResult)
    ensures HandleReply(JsonOpen + body + FenceClose, jsonParse)
            == Respond(jsonParse(body + FenceClose), body + FenceClose)
  {
    FullyFencedKeepsClosingFence(body);
  }
}
