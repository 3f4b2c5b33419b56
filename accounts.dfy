/**
 * The account directory: what `setAccountsXML` builds from an author's
 * `<konten>` definition, and the first-match lookups `getAccount` and
 * `getAccountText` perform over it.
 */
module Accounts {
  import opened Strings

  /**
   * One entry of the directory. `Empty` is the entry without any property
   * (PHP `array()`): the directory starts with one, and `getAccount`
   * returns one when nothing matches. Its number casts to 0 and its title
   * and text are empty.
   */
  datatype Entry = Empty | Account(number: string, title: string, text: string)

  function NumberOf(e: Entry): string { if e.Empty? then "" else e.number }
  function TitleOf(e: Entry): string { if e.Empty? then "" else e.title }
  function TextOf(e: Entry): string { if e.Empty? then "" else e.text }

  /**
   * The parsed account definition, as the XML parser delivers it: the root
   * element's name and attributes and the attributes of each child, in
   * document order.
   */
  datatype XmlTree = XmlTree(name: string, attributes: map<string, string>, children: seq<map<string, string>>)

  const RootName := "konten"

  /** `(string) ($node[$key] ?? '')`. */
  function Attribute(attrs: map<string, string>, key: string): string {
    if key in attrs then attrs[key] else ""
  }

  /** The account one child element describes, under the directory's display mode. */
  function AccountOf(display: string, child: map<string, string>): Entry {
    var number := Attribute(child, "nummer");
    var title := Attribute(child, "titel");
    var text :=
      if Lower(display) == "nummer" then number
      else if Lower(display) == "titel" then title
      else number + ": " + title;
    Account(number, title, text)
  }

  /** The directory for a list of children: the empty placeholder, then one account per child. */
  function Directory(display: string, children: seq<map<string, string>>): seq<Entry> {
    if children == [] then [Empty]
    else Directory(display, children[..|children| - 1]) + [AccountOf(display, children[|children| - 1])]
  }

  /** Whether the dropdowns may search account titles: `suche` is `beide` or `titel`, case-sensitively. */
  predicate SearchesTitle(search: string) {
    search == "beide" || search == "titel"
  }

  /** The directory holds the placeholder first and then one account per child, in document order. */
  lemma {:induction false} DirectoryEntries(display: string, children: seq<map<string, string>>)
    ensures |Directory(display, children)| == |children| + 1
    ensures Directory(display, children)[0] == Empty
    ensures forall k :: 0 <= k < |children| ==> Directory(display, children)[k + 1] == AccountOf(display, children[k])
    decreases |children|
  {
    if children != [] {
      var front := children[..|children| - 1];
      DirectoryEntries(display, front);
      assert forall k :: 0 <= k < |front| ==> front[k] == children[k];
    }
  }

  /**
   * Each account's number and title are the child's `nummer` and `titel`
   * (empty when missing), and its text is chosen by the lower-cased
   * display mode: the number for `nummer`, the title for `titel`, and
   * `number: title` otherwise.
   */
  lemma {:induction false} AccountFields(display: string, child: map<string, string>)
    ensures var e := AccountOf(display, child);
      && e.Account?
      && e.number == (if "nummer" in child then child["nummer"] else "")
      && e.title == (if "titel" in child then child["titel"] else "")
      && (Lower(display) == "nummer" ==> e.text == e.number)
      && (Lower(display) == "titel" ==> e.text == e.title)
      && (Lower(display) != "nummer" && Lower(display) != "titel" ==> e.text == e.number + ": " + e.title)
  {
  }

  /** `(int) $account['number'] == (int) $input`. */
  predicate NumberMatches(e: Entry, input: string) {
    IntCast(NumberOf(e)) == IntCast(input)
  }

  /**
   * The test of `getAccount`: the number casts equal, or the lower-cased
   * title or text loosely equal the lower-cased input (by value when both
   * are numeric strings).
   */
  predicate Matches(e: Entry, input: string) {
    || NumberMatches(e, input)
    || LooseEquals(Lower(TitleOf(e)), Lower(input))
    || LooseEquals(Lower(TextOf(e)), Lower(input))
  }

  /** The position of the first element of `s` that satisfies `p`, or `|s|` when there is none. */
  function FirstWhere<T>(s: seq<T>, p: T -> bool): (k: nat)
    ensures k <= |s|
    ensures k < |s| ==> p(s[k])
    ensures forall j :: 0 <= j < k ==> !p(s[j])
  {
    if s == [] then 0
    else if p(s[0]) then 0
    else
      var k := FirstWhere(s[1..], p);
      assert forall j :: 1 <= j < |s| ==> s[j] == s[1..][j - 1];
      1 + k
  }

  /** The position of the first entry that matches the input, or `|data|`. */
  function AccountPos(data: seq<Entry>, input: string): nat {
    FirstWhere(data, e => Matches(e, input))
  }

  /** The position of the first entry whose number matches, or `|data|`. */
  function NumberPos(data: seq<Entry>, number: string): nat {
    FirstWhere(data, e => NumberMatches(e, number))
  }

  /** No entry matches the input as `getAccount` tests it. */
  predicate NoneMatch(data: seq<Entry>, input: string) {
    forall j :: 0 <= j < |data| ==> !Matches(data[j], input)
  }

  /** No entry's number matches as `getAccountText` tests it. */
  predicate NoNumberMatch(data: seq<Entry>, number: string) {
    forall j :: 0 <= j < |data| ==> !NumberMatches(data[j], number)
  }

  /** The search of `getAccount` stops at the first entry that matches. */
  lemma {:induction false} AccountPosAt(data: seq<Entry>, input: string, i: nat)
    requires i < |data| && Matches(data[i], input) && NoneMatch(data[..i], input)
    ensures AccountPos(data, input) == i
  {
    forall j | 0 <= j < i ensures !Matches(data[j], input) {
      assert data[..i][j] == data[j];
    }
  }

  /** The search of `getAccount` runs to the end when no entry matches. */
  lemma {:induction false} AccountPosNone(data: seq<Entry>, input: string)
    requires NoneMatch(data, input)
    ensures AccountPos(data, input) == |data|
  {
  }

  /** The search of `getAccountText` stops at the first entry whose number matches. */
  lemma {:induction false} NumberPosAt(data: seq<Entry>, number: string, i: nat)
    requires i < |data| && NumberMatches(data[i], number) && NoNumberMatch(data[..i], number)
    ensures NumberPos(data, number) == i
  {
    forall j | 0 <= j < i ensures !NumberMatches(data[j], number) {
      assert data[..i][j] == data[j];
    }
  }

  /** The search of `getAccountText` runs to the end when no number matches. */
  lemma {:induction false} NumberPosNone(data: seq<Entry>, number: string)
    requires NoNumberMatch(data, number)
    ensures NumberPos(data, number) == |data|
  {
  }

  /** What `getAccount` returns: the first matching entry in list order, or `Empty` when none matches. */
  function FindAccount(data: seq<Entry>, input: string): Entry {
    var k := AccountPos(data, input);
    if k < |data| then data[k] else Empty
  }

  /** What `getAccountText` returns: the text of the first entry whose number matches, or `''`. */
  function AccountTextOf(data: seq<Entry>, number: string): string {
    var k := NumberPos(data, number);
    if k < |data| then TextOf(data[k]) else ""
  }

  /**
   * The placeholder shadows every input whose integer cast is 0: such an
   * input (any account title that does not start with digits, among
   * others) finds the empty entry and the empty text, whatever follows.
   */
  lemma {:induction false} PlaceholderShadowsZero(data: seq<Entry>, input: string)
    requires |data| > 0 && data[0] == Empty && IntCast(input) == 0
    ensures FindAccount(data, input) == Empty
    ensures AccountTextOf(data, input) == ""
  {
    assert IntCast("") == 0;
    assert Matches(data[0], input) && NumberMatches(data[0], input);
  }

  /** An account text is the text of some directory entry, or empty. */
  lemma {:induction false} AccountTextFromDirectory(data: seq<Entry>, number: string)
    ensures AccountTextOf(data, number) == "" ||
      exists k :: 0 <= k < |data| && AccountTextOf(data, number) == TextOf(data[k])
  {
  }

  /** The cast of the account number used by the examples below. */
  lemma {:induction false} CastSeven()
    ensures IntCast("7") == 7 && IntCast("") == 0
  {
    IntCastOfDigitFirst("7");
    assert LeadingDigits("7") == "7";
  }

  lemma {:induction false} SecondEntryText(d: seq<Entry>, number: string)
    requires |d| == 2 && !NumberMatches(d[0], number) && NumberMatches(d[1], number)
    ensures AccountTextOf(d, number) == TextOf(d[1])
  {
    var k := FirstWhere(d, e => NumberMatches(e, number));
    assert k == 1;
  }

  lemma {:induction false} CashAccount(display: string)
    ensures var e := AccountOf(display, map["nummer" := "7", "titel" := "Cash"]);
      e.number == "7" && e.title == "Cash" &&
      e.text == (if Lower(display) == "nummer" then "7" else if Lower(display) == "titel" then "Cash" else "7: Cash")
  {
  }

  lemma {:induction false} LowerNummer()
    ensures Lower("nummer") == "nummer"
  {
    var l := Lower("nummer");
    assert |l| == 6;
    assert l[0] == 'n' && l[1] == 'u' && l[2] == 'm' && l[3] == 'm' && l[4] == 'e' && l[5] == 'r';
  }

  /** Display mode `nummer` shows the number only. */
  lemma {:induction false} DisplayNumberExample()
    ensures AccountTextOf(Directory("nummer", [map["nummer" := "7", "titel" := "Cash"]]), "7") == "7"
  {
    var child := map["nummer" := "7", "titel" := "Cash"];
    CastSeven();
    LowerNummer();
    CashAccount("nummer");
    OneAccountDirectory("nummer", child);
    SecondEntryText(Directory("nummer", [child]), "7");
  }

  /** Without a display mode the text is `number: title`. */
  lemma {:induction false} DisplayDefaultExample()
    ensures AccountTextOf(Directory("", [map["nummer" := "7", "titel" := "Cash"]]), "7") == "7: Cash"
  {
    var child := map["nummer" := "7", "titel" := "Cash"];
    CastSeven();
    assert Lower("") == "";
    CashAccount("");
    OneAccountDirectory("", child);
    SecondEntryText(Directory("", [child]), "7");
  }

  lemma {:induction false} CastCash()
    ensures IntCast("Cash") == 0
  {
    var t := "Cash";
    assert t[0] == 'C';
    assert SkipSpaces(t) == t;
    assert LeadingDigits(t) == [];
  }

  lemma {:induction false} OneAccountDirectory(display: string, child: map<string, string>)
    ensures Directory(display, [child]) == [Empty, AccountOf(display, child)]
  {
    assert [child][..0] == [];
  }

  /**
   * The placeholder does not answer a decimal `whole.fraction` whose whole
   * part is not 0: the input casts to its whole part, and the empty title
   * and text are not numeric.
   */
  lemma {:induction false} PlaceholderMissesDecimal(whole: string, fraction: string)
    requires whole != [] && AllDigits(whole) && AllDigits(fraction) && DigitsValue(whole) != 0
    ensures !Matches(Empty, whole + "." + fraction)
  {
    var input := whole + "." + fraction;
    IntCastOfDecimal(whole, fraction);
    assert IntCast("") == 0;
    assert Lower("") == "";
    LowerOfDecimal(whole, fraction);
    LooseEqualsEmpty(input);
  }

  /**
   * A title `whole.fraction` answers the input `whole.fraction0`: both are
   * numeric strings with the same value, although the strings differ.
   */
  lemma {:induction false} TitleMatchesByValue(number: string, whole: string, fraction: string, text: string)
    requires AllDigits(whole) && AllDigits(fraction) && |whole| + |fraction| > 0
    ensures Matches(Account(number, whole + "." + fraction, text), whole + "." + fraction + "0")
  {
    var title, input := whole + "." + fraction, whole + "." + (fraction + "0");
    assert whole + "." + fraction + "0" == input;
    LowerOfDecimal(whole, fraction);
    LooseEqualsTrailingZero(whole, fraction);
    DigitsTrailingZero(fraction);
    LowerOfDecimal(whole, fraction + "0");
    assert LooseEquals(Lower(title), Lower(input));
  }

  /**
   * Titles are compared by value: after the placeholder, an account titled
   * `whole.fraction` is found by the input `whole.fraction0` unless its
   * number casts to the input's whole part first.
   */
  lemma {:induction false} NumericTitleFound(number: string, whole: string, fraction: string, text: string)
    requires whole != [] && AllDigits(whole) && AllDigits(fraction) && DigitsValue(whole) != 0
    ensures var account := Account(number, whole + "." + fraction, text);
      FindAccount([Empty, account], whole + "." + fraction + "0") == account
  {
    var account := Account(number, whole + "." + fraction, text);
    var data, input := [Empty, account], whole + "." + fraction + "0";
    assert input == whole + "." + (fraction + "0");
    DigitsTrailingZero(fraction);
    PlaceholderMissesDecimal(whole, fraction + "0");
    TitleMatchesByValue(number, whole, fraction, text);
    assert data[..1] == [Empty];
    AccountPosAt(data, input, 1);
  }

  /** A bare title never reaches the account: the placeholder answers first, whatever `suche` says. */
  lemma {:induction false} TitleLookupShadowed()
    ensures FindAccount(Directory("", [map["nummer" := "7", "titel" := "Cash"]]), "Cash") == Empty
  {
    var child := map["nummer" := "7", "titel" := "Cash"];
    CastCash();
    OneAccountDirectory("", child);
    PlaceholderShadowsZero(Directory("", [child]), "Cash");
  }
}
