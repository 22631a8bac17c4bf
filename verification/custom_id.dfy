/**
 * Button custom ids: built as `action:id` for the three listing buttons and
 * taken apart again with `split(':')` and `Number` when a button is pressed.
 */
module CustomId {
  import opened Basics
  import opened Text

  predicate IsDigit(c: char)
  {
    '0' <= c <= '9'
  }

  predicate AllDigits(s: string)
  {
    forall i :: 0 <= i < |s| ==> IsDigit(s[i])
  }

  function DigitChar(d: nat): (c: char)
    requires d < 10
    ensures IsDigit(c) && c as int - '0' as int == d
  {
    ('0' as int + d) as char
  }

  /** The decimal rendering of an id in a template literal. */
  function NatToString(n: nat): (s: string)
    ensures |s| > 0 && AllDigits(s)
    ensures s[0] == '0' ==> n == 0
  {
    if n < 10 then [DigitChar(n)] else NatToString(n / 10) + [DigitChar(n % 10)]
  }

  /** The value of a string of decimal digits; the empty string is 0, as it
      is for JavaScript's `Number("")`. */
  function DigitsValue(s: string): (n: nat)
    requires AllDigits(s)
  {
    if s == [] then 0 else DigitsValue(s[..|s| - 1]) * 10 + (s[|s| - 1] as int - '0' as int)
  }

  /** Reading back a rendered id gives the id. */
  lemma {:induction false} DigitsValueOfNatToString(n: nat)
    ensures DigitsValue(NatToString(n)) == n
  {
    if n >= 10 {
      var s := NatToString(n);
      assert s[..|s| - 1] == NatToString(n / 10);
      DigitsValueOfNatToString(n / 10);
    }
  }

  /** The first occurrence of `c` in `s`. */
  function IndexOf(s: string, c: char): (r: Option<nat>)
    ensures r.None? <==> c !in s
    ensures r.Some? ==> r.value < |s| && s[r.value] == c && forall j :: 0 <= j < r.value ==> s[j] != c
  {
    if s == [] then None
    else if s[0] == c then Some(0)
    else match IndexOf(s[1..], c)
      case None => None
      case Some(i) => Some(i + 1)
  }

  /** `controlsRow`: the custom id of the button `action` on trade `id`. */
  function Build(action: string, id: nat): (s: string)
  {
    action + ":" + NatToString(id)
  }

  /** The two leading fields of `customId.split(':')`: everything before the
      first colon, and the field after it up to the next colon or the end.
      Without any colon the second field is `undefined`, here `None`. */
  datatype Fields = Fields(action: string, idText: Option<string>)

  function SplitFields(customId: string): (f: Fields)
    ensures ':' !in f.action
    ensures f.idText.None? <==> ':' !in customId
    ensures f.idText.None? ==> f.action == customId
    ensures f.idText.Some? ==> ':' !in f.idText.value
    ensures f.idText.Some? ==> IsPrefix(f.action + ":" + f.idText.value, customId)
    ensures f.idText.Some? ==> var n := |f.action| + 1 + |f.idText.value|;
                               n == |customId| || customId[n] == ':'
  {
    match IndexOf(customId, ':')
    case None => Fields(customId, None)
    case Some(i) =>
      var rest := customId[i + 1..];
      var field := match IndexOf(rest, ':')
        case None => rest
        case Some(j) => rest[..j];
      assert customId[..i + 1 + |field|] == customId[..i] + ":" + field;
      Fields(customId[..i], Some(field))
  }

  /** `Number(idStr)` for the strings this bot's own buttons carry: `None`
      stands for NaN (no second field, or one that is not all decimal digits),
      which matches no row. */
  function ParseId(idText: Option<string>): (r: Option<nat>)
    ensures r.Some? <==> idText.Some? && AllDigits(idText.value)
    ensures r.Some? ==> r.value == DigitsValue(idText.value)
  {
    match idText
    case None => None
    case Some(s) => if AllDigits(s) then Some(DigitsValue(s)) else None
  }

  /** What a button press resolves to: the action name and the numeric id. */
  datatype Target = Target(action: string, id: Option<nat>)

  function Parse(customId: string): (r: Target)
  {
    var f := SplitFields(customId);
    Target(f.action, ParseId(f.idText))
  }

  /** Round trip: for an action name without a colon, parsing the built custom
      id gives back the action and the trade id. */
  lemma ParseBuild(action: string, id: nat)
    requires ':' !in action
    ensures Parse(Build(action, id)) == Target(action, Some(id))
  {
    var s := Build(action, id);
    var digits := NatToString(id);
    assert s[|action|] == ':';
    assert s[..|action|] == action;
    assert s[|action| + 1..] == digits;
    assert ':' !in digits by {
      forall i | 0 <= i < |digits| ensures digits[i] != ':' {
        assert IsDigit(digits[i]);
      }
    }
    var f := SplitFields(s);
    assert IndexOf(s, ':') == Some(|action|);
    assert f == Fields(action, Some(digits));
    DigitsValueOfNatToString(id);
  }
}
