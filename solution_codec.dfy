/**
 * The storage format of a learner's solution. A submission becomes one
 * entry `accqst_input`, whose value is one `<input part_id="…">` fragment
 * per part, each with one `<row …/>` per booking line, joined by
 * `<partBreak />`. Decoding accepts this format and the older one with one
 * entry `…_input_<part id>` per part.
 */
module SolutionCodec {
  import opened Wrappers
  import opened Strings
  import opened OrderedMap
  import opened Accounts
  import opened Parts

  /** The key of the current storage format. */
  const InputKey := "accqst_input"
  /** The key under which the variable values are stored. */
  const VarsKey := "accqst_vars"
  /** The separator between the fragments of the parts. */
  const PartBreak := "<partBreak />"
  /** The literal start of the part id in a fragment, as the decoder looks for it. */
  const PartIdOpen := "part_id=\""

  // ---------------------------------------------------------------------
  // Encoding (`getSolutionSubmit`)

  /** The prefix of the request fields of one booking row. */
  function FieldPrefix(questionId: int, partId: int, row: nat): string {
    "q_" + IntToString(questionId) + "_part_" + IntToString(partId) + "_row_" + IntToString(row) + "_"
  }

  /**
   * One `<row …/>` element from its values: each amount is written twice,
   * as money and as raw value, followed by the two account inputs and the
   * directory texts of those accounts.
   */
  function RowOf(right: string, left: string, rightAccount: string, leftAccount: string,
                 rightText: string, leftText: string): string {
    "<row rightValueMoney=\"" + right
      + "\" leftValueMoney=\"" + left
      + "\" rightValueRaw=\"" + right
      + "\" leftValueRaw=\"" + left
      + "\" rightAccountNum=\"" + rightAccount
      + "\" leftAccountNum=\"" + leftAccount
      + "\" rightAccountRaw=\"" + rightText
      + "\" leftAccountRaw=\"" + leftText
      + "\"/> "
  }

  /** The row of one booking line, from the request fields under its prefix. */
  function RowXml(prefix: string, request: string -> string, data: seq<Entry>): string {
    var right := request(prefix + "amount_right");
    var left := request(prefix + "amount_left");
    var rightAccount := request(prefix + "account_right");
    var leftAccount := request(prefix + "account_left");
    RowOf(right, left, rightAccount, leftAccount, AccountTextOf(data, rightAccount), AccountTextOf(data, leftAccount))
  }

  /** The opening tag of a part's fragment. */
  function Header(partId: int): string {
    "<input part_id=\"" + IntToString(partId) + "\">"
  }

  /** The rows of a part's first `n` booking lines, in row order. */
  function RowList(questionId: int, partId: int, request: string -> string, data: seq<Entry>, n: nat): (rows: seq<string>)
    ensures |rows| == n
  {
    seq(n, r requires 0 <= r < n => RowXml(FieldPrefix(questionId, partId, r), request, data))
  }

  /** Strings written one after the other. */
  function Concat(pieces: seq<string>): string {
    if pieces == [] then "" else Concat(pieces[..|pieces| - 1]) + pieces[|pieces| - 1]
  }

  /** Writing one more piece extends the text by that piece. */
  lemma {:induction false} ConcatSnoc(pieces: seq<string>, k: nat)
    requires k < |pieces|
    ensures Concat(pieces[..k + 1]) == Concat(pieces[..k]) + pieces[k]
  {
    assert pieces[..k + 1][..k] == pieces[..k];
  }

  /** The text of a part's first `n` rows. */
  function Rows(questionId: int, partId: int, request: string -> string, data: seq<Entry>, n: nat): string {
    Concat(RowList(questionId, partId, request, data, n))
  }

  /** The fragment of one part: its header, `maxLines` rows and the closing tag. */
  function Fragment(questionId: int, p: Part, request: string -> string, data: seq<Entry>): string {
    Header(p.partId) + Rows(questionId, p.partId, request, data, p.maxLines) + "</input>"
  }

  /** The fragments of all parts, in part order. */
  function Fragments(questionId: int, ps: seq<Part>, request: string -> string, data: seq<Entry>): seq<string> {
    seq(|ps|, i requires 0 <= i < |ps| => Fragment(questionId, ps[i], request, data))
  }

  /** What `getSolutionSubmit` returns: the single entry `accqst_input`. */
  function Submission(questionId: int, ps: seq<Part>, request: string -> string, data: seq<Entry>): Assoc {
    [(InputKey, Join(Fragments(questionId, ps, request, data), PartBreak))]
  }

  // ---------------------------------------------------------------------
  // Decoding (`getSolutionParts`)

  /**
   * The match of `part_id="([0-9]+)"` that starts at `j`, if any: the
   * literal start, a non-empty run of digits and a closing quote. As a
   * quote is no digit, the run is necessarily the longest one there.
   */
  function PartIdHere(s: string, j: nat): Option<string> {
    if OccursAt(s, PartIdOpen, j) then
      var d := LeadingDigits(s[j + |PartIdOpen|..]);
      var e := j + |PartIdOpen| + |d|;
      if |d| > 0 && e < |s| && s[e] == '"' then Some(d) else None
    else None
  }

  /** The captured digits of the leftmost match at or after `j` (`preg_match`). */
  function FindPartId(s: string, j: nat): Option<string>
    decreases |s| - j
  {
    if j > |s| then None
    else match PartIdHere(s, j)
      case Some(d) => Some(d)
      case None => FindPartId(s, j + 1)
  }

  /** The search from `j` finds nothing exactly when no position from `j` on matches. */
  lemma {:induction false} FindPartIdNone(s: string, j: nat)
    ensures FindPartId(s, j).None? <==> forall k :: j <= k <= |s| ==> PartIdHere(s, k).None?
    decreases |s| - j
  {
    if j <= |s| {
      if PartIdHere(s, j).None? {
        FindPartIdNone(s, j + 1);
        assert FindPartId(s, j) == FindPartId(s, j + 1);
      } else {
        assert FindPartId(s, j).Some?;
      }
    }
  }

  /** What the search finds is the match at some position from `j` on, with no match before it. */
  lemma {:induction false} FindPartIdLeftmost(s: string, j: nat)
    requires FindPartId(s, j).Some?
    ensures exists k ::
      && j <= k <= |s|
      && PartIdHere(s, k) == FindPartId(s, j)
      && (forall k' :: j <= k' < k ==> PartIdHere(s, k').None?)
    decreases |s| - j
  {
    if PartIdHere(s, j).None? {
      FindPartIdLeftmost(s, j + 1);
      var k :| j + 1 <= k <= |s| && PartIdHere(s, k) == FindPartId(s, j + 1) &&
        (forall k' :: j + 1 <= k' < k ==> PartIdHere(s, k').None?);
      assert forall k' :: j <= k' < k ==> PartIdHere(s, k').None?;
    }
  }

  /** One current-format fragment: kept under its part id, later ones overwriting earlier ones; dropped without an id. */
  function AddFragment(parts: Assoc, input: string): Assoc {
    match FindPartId(input, 0)
    case Some(id) => Put(parts, id, input)
    case None => parts
  }

  /** The fragments of one `accqst_input` value, added in order. */
  function AddFragments(parts: Assoc, inputs: seq<string>): Assoc {
    if inputs == [] then parts
    else AddFragment(AddFragments(parts, inputs[..|inputs| - 1]), inputs[|inputs| - 1])
  }

  /**
   * The part key of an old-format entry: the key split at `_` must have
   * `input` as its second segment; the part id is the third segment, or
   * `0` when there is none.
   */
  function LegacyPartKey(key: string): Option<string> {
    var split := Split(key, "_");
    if |split| > 1 && split[1] == "input" then Some(if |split| > 2 then split[2] else "0") else None
  }

  /** One solution entry added to the decoded parts. */
  function AddEntry(parts: Assoc, entry: (string, string)): Assoc {
    if entry.0 == InputKey then AddFragments(parts, Split(entry.1, PartBreak))
    else match LegacyPartKey(entry.0)
      case Some(id) => Put(parts, id, entry.1)
      case None => parts
  }

  /** What `getSolutionParts` returns: the entries of a solution decoded in order. */
  function PartsOf(solution: Assoc): Assoc {
    if solution == [] then []
    else AddEntry(PartsOf(solution[..|solution| - 1]), solution[|solution| - 1])
  }

  // ---------------------------------------------------------------------
  // The fragments carry no separator

  /** What the freeness proofs need of the separator: it starts with `<p` and holds no quote. */
  predicate MarkerShape(m: string) {
    |m| >= 2 && m[0] == '<' && m[1] == 'p' && '"' !in m
  }

  lemma {:induction false} PartBreakShape()
    ensures MarkerShape(PartBreak) && Unbordered(PartBreak)
  {
  }

  /** A string ending in `">` or `"/> `: no occurrence of the marker can start in its tail. */
  predicate ClosedTag(s: string) {
    || (|s| >= 2 && s[|s| - 2] == '"' && s[|s| - 1] == '>')
    || (|s| >= 4 && s[|s| - 4] == '"' && s[|s| - 3] == '/' && s[|s| - 2] == '>' && s[|s| - 1] == ' ')
  }

  lemma {:induction false} AfterClosedTag(a: string, b: string, m: string)
    requires MarkerShape(m) && ClosedTag(a) && !Contains(a, m) && !Contains(b, m)
    ensures !Contains(a + b, m)
  {
    if |a| >= 2 && a[|a| - 2] == '"' && a[|a| - 1] == '>' {
      ConcatFree(a, b, m, |a| - 2);
    } else {
      ConcatFree(a, b, m, |a| - 4);
    }
  }

  /** A closed tag stays closed when something is put in front of it. */
  lemma {:induction false} ClosedTagAfter(a: string, b: string)
    requires ClosedTag(b)
    ensures ClosedTag(a + b)
  {
    var s := a + b;
    if |b| >= 2 && b[|b| - 2] == '"' && b[|b| - 1] == '>' {
      assert s[|s| - 2] == b[|b| - 2] && s[|s| - 1] == b[|b| - 1];
    } else {
      assert s[|s| - 4] == b[|b| - 4] && s[|s| - 3] == b[|b| - 3];
      assert s[|s| - 2] == b[|b| - 2] && s[|s| - 1] == b[|b| - 1];
    }
  }

  /** Appending a quoted piece `lit` without `<` and then a free value keeps a string free of the marker. */
  lemma {:induction false} Glue(a: string, lit: string, v: string, m: string)
    requires MarkerShape(m) && !Contains(a, m) && !Contains(v, m)
    requires |lit| >= 1 && lit[0] == '"' && lit[|lit| - 1] == '"' && '<' !in lit
    ensures !Contains(a + lit + v, m)
  {
    NoFirstChar(lit, m);
    SeamFree(a, lit, m);
    assert (a + lit)[|a + lit| - 1] == lit[|lit| - 1];
    SeamFree(a + lit, v, m);
  }

  /** Two attributes written after a marker-free text keep it free of the marker. */
  lemma {:induction false} TwoAttributesFree(m: string, t: string, lit1: string, v1: string, lit2: string, v2: string)
    requires MarkerShape(m) && !Contains(t, m) && !Contains(v1, m) && !Contains(v2, m)
    requires |lit1| >= 1 && lit1[0] == '"' && lit1[|lit1| - 1] == '"' && '<' !in lit1
    requires |lit2| >= 1 && lit2[0] == '"' && lit2[|lit2| - 1] == '"' && '<' !in lit2
    ensures !Contains(t + lit1 + v1 + lit2 + v2, m)
  {
    Glue(t, lit1, v1, m);
    Glue(t + lit1 + v1, lit2, v2, m);
  }

  /** The money amounts of a row are free of the marker when the amounts are. */
  lemma {:induction false} MoneyFree(m: string, right: string, left: string)
    requires MarkerShape(m) && !Contains(right, m) && !Contains(left, m)
    ensures !Contains("<row rightValueMoney=\"" + right + "\" leftValueMoney=\"" + left, m)
  {
    var open := "<row rightValueMoney=\"";
    RowOpenFree(m);
    SeamFree(open, right, m);
    Glue(open + right, "\" leftValueMoney=\"", left, m);
  }

  /** `<` followed by a character other than the marker's second one and no further `<`. */
  lemma {:induction false} HeadTailFree(c: char, tail: string, m: string)
    requires MarkerShape(m) && c != m[1] && c != '<' && '<' !in tail
    ensures !Contains(['<', c] + tail, m)
  {
    var s := ['<', c] + tail;
    assert s[1..] == [c] + tail;
    OnlyHeadFree(s, m);
  }

  lemma {:induction false} RowOpenFree(m: string)
    requires MarkerShape(m)
    ensures !Contains("<row rightValueMoney=\"", m)
  {
    var tail := "ow rightValueMoney=\"";
    assert '<' !in tail;
    assert "<r" + tail == "<row rightValueMoney=\"";
    HeadTailFree('r', tail, m);
  }

  /** A row is free of the marker when the six values written into it are. */
  lemma {:induction false} RowOfFree(m: string, right: string, left: string, rightAccount: string, leftAccount: string,
                  rightText: string, leftText: string)
    requires MarkerShape(m)
    requires !Contains(right, m) && !Contains(left, m) && !Contains(rightAccount, m)
    requires !Contains(leftAccount, m) && !Contains(rightText, m) && !Contains(leftText, m)
    ensures !Contains(RowOf(right, left, rightAccount, leftAccount, rightText, leftText), m)
    ensures ClosedTag(RowOf(right, left, rightAccount, leftAccount, rightText, leftText))
  {
    var t := "<row rightValueMoney=\"" + right + "\" leftValueMoney=\"" + left;
    MoneyFree(m, right, left);
    TwoAttributesFree(m, t, "\" rightValueRaw=\"", right, "\" leftValueRaw=\"", left);
    t := t + "\" rightValueRaw=\"" + right + "\" leftValueRaw=\"" + left;
    TwoAttributesFree(m, t, "\" rightAccountNum=\"", rightAccount, "\" leftAccountNum=\"", leftAccount);
    t := t + "\" rightAccountNum=\"" + rightAccount + "\" leftAccountNum=\"" + leftAccount;
    TwoAttributesFree(m, t, "\" rightAccountRaw=\"", rightText, "\" leftAccountRaw=\"", leftText);
    t := t + "\" rightAccountRaw=\"" + rightText + "\" leftAccountRaw=\"" + leftText;
    var close := "\"/> ";
    NoFirstChar(close, m);
    SeamFree(t, close, m);
    ClosedTagAfter(t, close);
  }

  /** An account text is free of the marker when every text of the directory is. */
  lemma {:induction false} AccountTextFree(data: seq<Entry>, number: string, m: string)
    requires |m| > 0
    requires forall k :: 0 <= k < |data| ==> !Contains(TextOf(data[k]), m)
    ensures !Contains(AccountTextOf(data, number), m)
  {
    AccountTextFromDirectory(data, number);
    if AccountTextOf(data, number) == "" {
      NoFirstChar("", m);
    }
  }

  lemma {:induction false} RowFree(prefix: string, request: string -> string, data: seq<Entry>, m: string)
    requires MarkerShape(m)
    requires forall key :: !Contains(request(key), m)
    requires forall k :: 0 <= k < |data| ==> !Contains(TextOf(data[k]), m)
    ensures !Contains(RowXml(prefix, request, data), m)
    ensures ClosedTag(RowXml(prefix, request, data))
  {
    var right := request(prefix + "amount_right");
    var left := request(prefix + "amount_left");
    var rightAccount := request(prefix + "account_right");
    var leftAccount := request(prefix + "account_left");
    assert !Contains(right, m) && !Contains(left, m) && !Contains(rightAccount, m) && !Contains(leftAccount, m);
    RowTextsFree(data, rightAccount, leftAccount, m);
    RowOfFree(m, right, left, rightAccount, leftAccount, AccountTextOf(data, rightAccount), AccountTextOf(data, leftAccount));
  }

  lemma {:induction false} RowTextsFree(data: seq<Entry>, rightAccount: string, leftAccount: string, m: string)
    requires |m| > 0
    requires forall k :: 0 <= k < |data| ==> !Contains(TextOf(data[k]), m)
    ensures !Contains(AccountTextOf(data, rightAccount), m) && !Contains(AccountTextOf(data, leftAccount), m)
  {
    AccountTextFree(data, rightAccount, m);
    AccountTextFree(data, leftAccount, m);
  }

  lemma {:induction false} HeaderFree(partId: int, m: string)
    requires partId >= 0 && MarkerShape(m)
    ensures !Contains(Header(partId), m) && ClosedTag(Header(partId))
  {
    var open := "<input part_id=\"";
    var d := IntToString(partId);
    OnlyHeadFree(open, m);
    assert '<' !in d;
    NoFirstChar(d, m);
    SeamFree(open, d, m);
    NoFirstChar("\">", m);
    SeamFree(open + d, "\">", m);
    ClosedTagAfter(open + d, "\">");
  }

  lemma {:induction false} AppendClosed(before: string, row: string, s: string, m: string)
    requires MarkerShape(m) && ClosedTag(before) && ClosedTag(row)
    requires !Contains(before, m) && !Contains(row, m) && s == before + row
    ensures !Contains(s, m) && ClosedTag(s)
  {
    AfterClosedTag(before, row, m);
    ClosedTagAfter(before, row);
  }

  /** Marker-free closed pieces concatenate to a marker-free string, closed unless empty. */
  lemma {:induction false} PiecesFree(pieces: seq<string>, m: string)
    requires MarkerShape(m)
    requires forall i :: 0 <= i < |pieces| ==> !Contains(pieces[i], m) && ClosedTag(pieces[i])
    ensures !Contains(Concat(pieces), m)
    ensures pieces != [] ==> ClosedTag(Concat(pieces))
    decreases |pieces|
  {
    if pieces == [] {
      NoFirstChar("", m);
    } else {
      var front := pieces[..|pieces| - 1];
      var last := pieces[|pieces| - 1];
      assert forall i :: 0 <= i < |front| ==> front[i] == pieces[i];
      PiecesFree(front, m);
      if front == [] {
        assert Concat(pieces) == "" + last == last;
      } else {
        AppendClosed(Concat(front), last, Concat(pieces), m);
      }
    }
  }

  lemma {:induction false} RowsFree(questionId: int, partId: int, request: string -> string, data: seq<Entry>, n: nat, m: string)
    requires MarkerShape(m)
    requires forall key :: !Contains(request(key), m)
    requires forall k :: 0 <= k < |data| ==> !Contains(TextOf(data[k]), m)
    ensures !Contains(Rows(questionId, partId, request, data, n), m)
    ensures n > 0 ==> ClosedTag(Rows(questionId, partId, request, data, n))
  {
    var rows := RowList(questionId, partId, request, data, n);
    forall r | 0 <= r < n ensures !Contains(rows[r], m) && ClosedTag(rows[r]) {
      RowFree(FieldPrefix(questionId, partId, r), request, data, m);
    }
    PiecesFree(rows, m);
  }

  lemma {:induction false} WrapFree(header: string, rows: string, closing: string, m: string)
    requires MarkerShape(m) && ClosedTag(header) && !Contains(header, m)
    requires !Contains(rows, m) && (rows == [] || ClosedTag(rows)) && !Contains(closing, m)
    ensures !Contains(header + rows + closing, m)
  {
    if rows == [] {
      assert header + rows == header;
    } else {
      AppendClosed(header, rows, header + rows, m);
    }
    AfterClosedTag(header + rows, closing, m);
  }

  lemma {:induction false} ClosingFree(m: string)
    requires MarkerShape(m)
    ensures !Contains("</input>", m)
  {
    var close := "</input>";
    assert close[1] == '/';
    assert '<' !in close[1..];
    OnlyHeadFree(close, m);
  }

  /** No fragment contains the marker, when no request value and no account text does. */
  lemma {:induction false} FragmentFree(questionId: int, p: Part, request: string -> string, data: seq<Entry>, m: string)
    requires p.partId >= 0 && MarkerShape(m)
    requires forall key :: !Contains(request(key), m)
    requires forall k :: 0 <= k < |data| ==> !Contains(TextOf(data[k]), m)
    ensures !Contains(Fragment(questionId, p, request, data), m)
  {
    HeaderFree(p.partId, m);
    RowsFree(questionId, p.partId, request, data, p.maxLines, m);
    ClosingFree(m);
    WrapFree(Header(p.partId), Rows(questionId, p.partId, request, data, p.maxLines), "</input>", m);
  }

  // ---------------------------------------------------------------------
  // The decoder finds the id the encoder wrote

  /** Positions without a match are skipped by the search. */
  lemma {:induction false} FindPartIdSkips(s: string, j: nat, k: nat)
    requires j <= k <= |s|
    requires forall i :: j <= i < k ==> PartIdHere(s, i).None?
    ensures FindPartId(s, j) == FindPartId(s, k)
    decreases k - j
  {
    if j < k {
      FindPartIdStep(s, j);
      FindPartIdSkips(s, j + 1, k);
    }
  }

  /** One position without a match is skipped. */
  lemma {:induction false} FindPartIdStep(s: string, j: nat)
    requires j < |s| && PartIdHere(s, j).None?
    ensures FindPartId(s, j) == FindPartId(s, j + 1)
  {
  }

  /** No match of the pattern starts inside `<input `. */
  lemma {:induction false} NoMatchInTagName(s: string)
    requires |s| >= 16 && s[..16] == "<input part_id=\""
    ensures forall i :: 0 <= i < 7 ==> PartIdHere(s, i).None?
  {
    assert s[0] == '<' && s[1] == 'i' && s[2] == 'n' && s[3] == 'p' && s[4] == 'u' && s[5] == 't' && s[6] == ' ' by {
      assert forall i :: 0 <= i < 16 ==> s[i] == s[..16][i];
    }
    MismatchAt(s, PartIdOpen, 0, 0);
    MismatchAt(s, PartIdOpen, 1, 0);
    MismatchAt(s, PartIdOpen, 2, 0);
    MismatchAt(s, PartIdOpen, 3, 1);
    MismatchAt(s, PartIdOpen, 4, 0);
    MismatchAt(s, PartIdOpen, 5, 0);
    MismatchAt(s, PartIdOpen, 6, 0);
  }

  /** The match at the attribute captures the digits that follow it. */
  lemma {:induction false} MatchAtAttribute(d: string, rest: string, s: string)
    requires AllDigits(d) && d != [] && rest != [] && rest[0] == '"'
    requires s == "<input part_id=\"" + d + rest
    ensures PartIdHere(s, 7) == Some(d)
  {
    var open := "<input part_id=\"";
    assert s[7..16] == PartIdOpen by {
      assert s[..16] == open;
      assert s[7..16] == open[7..16];
    }
    assert s[16..] == d + rest;
    LeadingDigitsOfDigits(d, rest);
    assert s[16 + |d|] == (d + rest)[|d|];
  }

  /** In `<input part_id="<digits>"…`, the leftmost match of the decoder's pattern captures the digits. */
  lemma {:induction false} HeaderMatch(d: string, rest: string)
    requires AllDigits(d) && d != [] && rest != [] && rest[0] == '"'
    ensures FindPartId("<input part_id=\"" + d + rest, 0) == Some(d)
  {
    var s := "<input part_id=\"" + d + rest;
    assert s[..16] == "<input part_id=\"";
    NoMatchInTagName(s);
    FindPartIdSkips(s, 0, 7);
    MatchAtAttribute(d, rest, s);
  }

  /** The id a fragment starts with is the one the decoder captures. */
  lemma {:induction false} FragmentPartId(questionId: int, p: Part, request: string -> string, data: seq<Entry>)
    requires p.partId >= 0
    ensures FindPartId(Fragment(questionId, p, request, data), 0) == Some(IntToString(p.partId))
  {
    var d := IntToString(p.partId);
    var rest := "\">" + Rows(questionId, p.partId, request, data, p.maxLines) + "</input>";
    assert Fragment(questionId, p, request, data) == "<input part_id=\"" + d + rest;
    HeaderMatch(d, rest);
  }

  // ---------------------------------------------------------------------
  // Round trip

  /** The keys the decoder files the parts' fragments under: their ids in decimal. */
  function PartKeys(ps: seq<Part>): (keys: seq<string>)
    ensures |keys| == |ps|
  {
    seq(|ps|, i requires 0 <= i < |ps| => IntToString(ps[i].partId))
  }

  /** Keys paired with values, position by position. */
  function Zip(keys: seq<string>, values: seq<string>): (a: Assoc)
    requires |keys| == |values|
    ensures |a| == |keys|
  {
    seq(|keys|, i requires 0 <= i < |keys| => (keys[i], values[i]))
  }

  /** The decoding the round trip produces: each part's id mapped to its fragment, in part order. */
  function Expected(questionId: int, ps: seq<Part>, request: string -> string, data: seq<Entry>): Assoc {
    Zip(PartKeys(ps), Fragments(questionId, ps, request, data))
  }

  predicate DistinctIds(ps: seq<Part>) {
    forall i, j :: 0 <= i < j < |ps| ==> ps[i].partId != ps[j].partId
  }

  lemma {:induction false} DistinctPartKeys(ps: seq<Part>)
    requires DistinctIds(ps)
    ensures forall i, j :: 0 <= i < j < |ps| ==> PartKeys(ps)[i] != PartKeys(ps)[j]
  {
    forall i, j | 0 <= i < j < |ps| ensures PartKeys(ps)[i] != PartKeys(ps)[j] {
      IntToStringInjective(ps[i].partId, ps[j].partId);
    }
  }

  /** A fragment whose id is not yet present is appended under that id. */
  lemma {:induction false} AddTagged(acc: Assoc, input: string, id: string)
    requires FindPartId(input, 0) == Some(id) && id !in Keys(acc)
    ensures AddFragment(acc, input) == acc + [(id, input)]
  {
    PutNew(acc, id, input);
  }

  lemma {:induction false} ZipSnoc(keys: seq<string>, values: seq<string>)
    requires |keys| == |values| && keys != []
    ensures Zip(keys[..|keys| - 1], values[..|keys| - 1]) + [(keys[|keys| - 1], values[|keys| - 1])] == Zip(keys, values)
  {
  }

  /** A key that differs from every key of a zip is not among its keys. */
  lemma {:induction false} ZipFresh(keys: seq<string>, values: seq<string>, k: string)
    requires |keys| == |values| && forall i :: 0 <= i < |keys| ==> keys[i] != k
    ensures k !in Keys(Zip(keys, values))
  {
    var z := Zip(keys, values);
    forall x | x in Keys(z) ensures x != k {
      var t :| 0 <= t < |z| && z[t].0 == x;
      assert z[t].0 == keys[t];
    }
  }

  predicate Tagged(inputs: seq<string>, ids: seq<string>) {
    |ids| == |inputs| && forall i :: 0 <= i < |inputs| ==> FindPartId(inputs[i], 0) == Some(ids[i])
  }

  /** Fragments that carry distinct ids are filed, in order, each under its own id. */
  lemma {:induction false} DecodeTagged(inputs: seq<string>, ids: seq<string>)
    requires Tagged(inputs, ids)
    requires forall i, j :: 0 <= i < j < |ids| ==> ids[i] != ids[j]
    ensures AddFragments([], inputs) == Zip(ids, inputs)
    decreases |inputs|
  {
    if inputs != [] {
      var n := |inputs| - 1;
      var front, keys := inputs[..n], ids[..n];
      assert Tagged(front, keys) by {
        forall i | 0 <= i < n ensures FindPartId(front[i], 0) == Some(keys[i]) {
          assert front[i] == inputs[i] && keys[i] == ids[i];
        }
      }
      DecodeTagged(front, keys);
      ZipFresh(keys, front, ids[n]);
      AddTagged(Zip(keys, front), inputs[n], ids[n]);
      ZipSnoc(ids, inputs);
    }
  }

  lemma {:induction false} DecodeFragments(questionId: int, ps: seq<Part>, request: string -> string, data: seq<Entry>)
    requires DistinctIds(ps) && forall i :: 0 <= i < |ps| ==> ps[i].partId >= 0
    ensures AddFragments([], Fragments(questionId, ps, request, data)) == Expected(questionId, ps, request, data)
  {
    var fs := Fragments(questionId, ps, request, data);
    forall i | 0 <= i < |ps| ensures FindPartId(fs[i], 0) == Some(PartKeys(ps)[i]) {
      FragmentPartId(questionId, ps[i], request, data);
    }
    DistinctPartKeys(ps);
    assert Tagged(fs, PartKeys(ps));
    DecodeTagged(fs, PartKeys(ps));
  }

  /**
   * Decoding what `getSolutionSubmit` encoded gives back, in part order,
   * each part's id mapped to exactly the fragment built for it, provided
   * the part ids are distinct and non-negative and no request value and
   * no account text contains the separator.
   */
  lemma {:induction false} RoundTrip(questionId: int, ps: seq<Part>, request: string -> string, data: seq<Entry>)
    requires DistinctIds(ps) && forall i :: 0 <= i < |ps| ==> ps[i].partId >= 0
    requires forall key :: !Contains(request(key), PartBreak)
    requires forall k :: 0 <= k < |data| ==> !Contains(TextOf(data[k]), PartBreak)
    ensures PartsOf(Submission(questionId, ps, request, data)) == Expected(questionId, ps, request, data)
  {
    var sub := Submission(questionId, ps, request, data);
    var fs := Fragments(questionId, ps, request, data);
    assert sub[..0] == [];
    assert PartsOf(sub) == AddFragments([], Split(Join(fs, PartBreak), PartBreak));
    PartBreakShape();
    if ps == [] {
      assert Join(fs, PartBreak) == "";
      assert Split("", PartBreak) == [""];
      assert FindPartId("", 0).None? by {
        assert PartIdHere("", 0).None?;
      }
      assert AddFragments([], [""]) == AddFragment([], "");
    } else {
      forall i | 0 <= i < |fs| ensures !Contains(fs[i], PartBreak) {
        FragmentFree(questionId, ps[i], request, data, PartBreak);
      }
      SplitJoin(fs, PartBreak);
      DecodeFragments(questionId, ps, request, data);
    }
  }

  // ---------------------------------------------------------------------
  // Decoding rules

  /** A fragment without a part id is dropped. */
  lemma {:induction false} FragmentWithoutIdDropped(parts: Assoc, inputs: seq<string>, input: string)
    requires forall k :: 0 <= k <= |input| ==> PartIdHere(input, k).None?
    ensures AddFragments(parts, inputs + [input]) == AddFragments(parts, inputs)
  {
    FindPartIdNone(input, 0);
    assert (inputs + [input])[..|inputs|] == inputs;
  }

  /** Of several fragments with the same id, the last one is kept. */
  lemma {:induction false} LastFragmentWins(parts: Assoc, inputs: seq<string>, id: string, k: nat)
    requires k < |inputs| && FindPartId(inputs[k], 0) == Some(id)
    requires forall j :: k < j < |inputs| ==> FindPartId(inputs[j], 0) != Some(id)
    ensures Get(AddFragments(parts, inputs), id) == Some(inputs[k])
    decreases |inputs|
  {
    var front := inputs[..|inputs| - 1];
    var last := inputs[|inputs| - 1];
    if k == |inputs| - 1 {
      GetPut(AddFragments(parts, front), id, last, id);
    } else {
      assert forall j :: k < j < |front| ==> front[j] == inputs[j];
      LastFragmentWins(parts, front, id, k);
      match FindPartId(last, 0)
      case Some(other) => GetPut(AddFragments(parts, front), other, last, id);
      case None =>
    }
  }

  lemma {:induction false} UnderscoreFree(s: string)
    requires '_' !in s
    ensures !Contains(s, "_")
  {
    NoFirstChar(s, "_");
  }

  /** `prefix_rest`: the first segment is `prefix`, the split of the rest follows. */
  lemma {:induction false} SplitSegment(prefix: string, rest: string)
    requires '_' !in prefix
    ensures Split(prefix + "_" + rest, "_") == [prefix] + Split(rest, "_")
  {
    UnderscoreFree(prefix);
    SplitAfterFree(prefix, "_", rest);
  }

  /** The segments of a last segment followed by nothing or by `_…`. */
  lemma {:induction false} LastSegment(seg: string, tail: string)
    requires '_' !in seg && (tail == [] || tail[0] == '_')
    ensures Split(seg + tail, "_")[0] == seg
  {
    UnderscoreFree(seg);
    if tail == [] {
      assert seg + tail == seg;
      SplitFree(seg, "_");
    } else {
      assert seg + tail == seg + "_" + tail[1..];
      SplitSegment(seg, tail[1..]);
    }
  }

  lemma {:induction false} SecondAndThird(split: seq<string>, first: string, second: string, more: seq<string>)
    requires |more| >= 1 && split == [first] + ([second] + more)
    ensures |split| > 2 && split[1] == second && split[2] == more[0]
  {
  }

  /** An old-format key `<prefix>_input_<id>`, possibly followed by `_…`, is kept under `<id>`. */
  lemma {:induction false} LegacyKeyWithId(prefix: string, id: string, tail: string)
    requires '_' !in prefix && '_' !in id
    requires tail == [] || tail[0] == '_'
    ensures LegacyPartKey(prefix + "_" + "input" + "_" + id + tail) == Some(id)
  {
    var key := prefix + "_" + "input" + "_" + id + tail;
    var rest := id + tail;
    var afterPrefix := "input" + "_" + rest;
    assert key == prefix + "_" + afterPrefix;
    SplitSegment(prefix, afterPrefix);
    assert '_' !in "input";
    SplitSegment("input", rest);
    LastSegment(id, tail);
    SecondAndThird(Split(key, "_"), prefix, "input", Split(rest, "_"));
  }

  /** An old-format key `<prefix>_input` without a third segment is kept under part 0. */
  lemma {:induction false} LegacyKeyWithoutId(prefix: string)
    requires '_' !in prefix
    ensures LegacyPartKey(prefix + "_" + "input") == Some("0")
  {
    SplitSegment(prefix, "input");
    assert '_' !in "input";
    UnderscoreFree("input");
    SplitFree("input", "_");
  }

  /** A key whose second segment is not `input` is ignored. */
  lemma {:induction false} OtherKeyIgnored(prefix: string, second: string, tail: string)
    requires '_' !in prefix && '_' !in second && second != "input"
    requires tail == [] || tail[0] == '_'
    ensures LegacyPartKey(prefix + "_" + second + tail) == None
  {
    assert prefix + "_" + second + tail == prefix + "_" + (second + tail);
    SplitSegment(prefix, second + tail);
    LastSegment(second, tail);
  }

  /** The stored variables entry is no part: decoding passes over it. */
  lemma {:induction false} VarsEntryIgnored(parts: Assoc, value: string)
    ensures AddEntry(parts, (VarsKey, value)) == parts
  {
    assert VarsKey == "accqst" + "_" + "vars" + "";
    assert '_' !in "accqst" && '_' !in "vars";
    OtherKeyIgnored("accqst", "vars", "");
  }

  /** A key without `_` is ignored, unless it is the key of the current format. */
  lemma {:induction false} PlainKeyIgnored(parts: Assoc, key: string, value: string)
    requires '_' !in key
    ensures AddEntry(parts, (key, value)) == parts
  {
    assert InputKey[6] == '_';
    UnderscoreFree(key);
    SplitFree(key, "_");
  }

  /** Old-format entries `accqst_input_<id>`, one per part, in part order. */
  function LegacyEntries(ids: seq<string>, frags: seq<string>): (a: Assoc)
    requires |ids| == |frags|
    ensures |a| == |ids|
  {
    seq(|ids|, i requires 0 <= i < |ids| => (InputKey + "_" + ids[i], frags[i]))
  }

  /** Old-format entries with distinct ids are decoded, in order, each under its own id. */
  lemma {:induction false} DecodeLegacy(ids: seq<string>, frags: seq<string>)
    requires |ids| == |frags|
    requires forall i :: 0 <= i < |ids| ==> '_' !in ids[i]
    requires forall i, j :: 0 <= i < j < |ids| ==> ids[i] != ids[j]
    ensures PartsOf(LegacyEntries(ids, frags)) == Zip(ids, frags)
    decreases |ids|
  {
    if ids != [] {
      var n := |ids| - 1;
      var a := LegacyEntries(ids, frags);
      assert a[..n] == LegacyEntries(ids[..n], frags[..n]);
      DecodeLegacy(ids[..n], frags[..n]);
      assert a[n].0 == "accqst" + "_" + "input" + "_" + ids[n] + "";
      assert a[n].0 != InputKey by {
        assert |a[n].0| > |InputKey|;
      }
      assert '_' !in "accqst";
      LegacyKeyWithId("accqst", ids[n], "");
      ZipFresh(ids[..n], frags[..n], ids[n]);
      PutNew(Zip(ids[..n], frags[..n]), ids[n], frags[n]);
      ZipSnoc(ids, frags);
    }
  }

  /**
   * Legacy compatibility: a solution stored in the old format, one
   * `accqst_input_<id>` entry per part, decodes to the same parts as one
   * current-format entry holding the same fragments joined by
   * `<partBreak />`, when the ids are distinct and free of `_` and each
   * fragment carries its id.
   */
  lemma {:induction false} LegacyMatchesCurrent(ids: seq<string>, frags: seq<string>)
    requires |ids| == |frags|
    requires forall i :: 0 <= i < |ids| ==> '_' !in ids[i]
    requires forall i, j :: 0 <= i < j < |ids| ==> ids[i] != ids[j]
    requires Tagged(frags, ids)
    requires forall i :: 0 <= i < |frags| ==> !Contains(frags[i], PartBreak)
    ensures PartsOf(LegacyEntries(ids, frags)) == Zip(ids, frags)
    ensures PartsOf([(InputKey, Join(frags, PartBreak))]) == Zip(ids, frags)
  {
    DecodeLegacy(ids, frags);
    var current: Assoc := [(InputKey, Join(frags, PartBreak))];
    assert current[..0] == [];
    assert PartsOf(current) == AddFragments([], Split(Join(frags, PartBreak), PartBreak));
    PartBreakShape();
    if frags == [] {
      assert Join(frags, PartBreak) == "";
      assert Split("", PartBreak) == [""];
      assert FindPartId("", 0).None? by {
        assert PartIdHere("", 0).None?;
      }
      assert AddFragments([], [""]) == AddFragment([], "");
    } else {
      SplitJoin(frags, PartBreak);
      DecodeTagged(frags, ids);
    }
  }

  /**
   * Grading a decoded submission gives each part the score of its own
   * fragment: the decoding and the grading loop agree on the part ids.
   */
  lemma {:induction false} GradedOnOwnFragment(questionId: int, ps: seq<Part>, request: string -> string, data: seq<Entry>, i: nat)
    requires DistinctIds(ps) && i < |ps|
    ensures FragmentFor(Expected(questionId, ps, request, data), ps[i].partId) == Fragment(questionId, ps[i], request, data)
  {
    var e := Expected(questionId, ps, request, data);
    DistinctPartKeys(ps);
    assert DistinctKeys(e);
    GetAt(e, i);
  }
}
