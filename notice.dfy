/**
 * The text of a notice: the comma-joined name lists of the setup messages
 * (string.Join) and the localized strings (GetLocalizedText).
 */
module Notice {

  /** string.Join(sep, items). */
  function Join(items: seq<string>, sep: string): (r: string)
  {
    if |items| == 0 then ""
    else if |items| == 1 then items[0]
    else items[0] + sep + Join(items[1..], sep)
  }

  /** Where items[i] starts inside Join(items, sep): every earlier item and its separator come first. */
  function JoinOffset(items: seq<string>, sep: string, i: nat): (r: nat)
    requires i < |items|
  {
    if i == 0 then 0 else |items[0]| + |sep| + JoinOffset(items[1..], sep, i - 1)
  }

  /** Each item appears verbatim in the joined text, at its offset. */
  lemma {:induction false} JoinPlacesItem(items: seq<string>, sep: string, i: nat)
    requires i < |items|
    ensures JoinOffset(items, sep, i) + |items[i]| <= |Join(items, sep)|
    ensures Join(items, sep)[JoinOffset(items, sep, i)..JoinOffset(items, sep, i) + |items[i]|] == items[i]
  {
    if |items| == 1 {
    } else if i == 0 {
      assert Join(items, sep) == items[0] + (sep + Join(items[1..], sep));
    } else {
      JoinPlacesItem(items[1..], sep, i - 1);
      var head := items[0] + sep;
      var rest := Join(items[1..], sep);
      var k := JoinOffset(items[1..], sep, i - 1);
      assert Join(items, sep) == head + rest;
      SliceOfAppend(head, rest, k, k + |items[i]|);
    }
  }

  lemma SliceOfAppend(a: string, b: string, lo: nat, hi: nat)
    requires lo <= hi <= |b|
    ensures (a + b)[|a| + lo..|a| + hi] == b[lo..hi]
  {
  }

  /** The names joined with ", " after the prefix and a newline, as in the not-installed and disabled notices. */
  function ListMessage(prefix: string, names: seq<string>): (r: string)
    ensures |r| == |prefix| + 1 + |Join(names, ", ")|
    ensures r[..|prefix|] == prefix && r[|prefix|] == '\n' && r[|prefix| + 1..] == Join(names, ", ")
  {
    prefix + "\n" + Join(names, ", ")
  }

  /** Each listed name appears verbatim in the message, after the prefix line. */
  lemma ListMessageNamesEach(prefix: string, names: seq<string>, i: nat)
    requires i < |names|
    ensures var at := |prefix| + 1 + JoinOffset(names, ", ", i);
      at + |names[i]| <= |ListMessage(prefix, names)| &&
      ListMessage(prefix, names)[at..at + |names[i]|] == names[i]
  {
    JoinPlacesItem(names, ", ", i);
    SliceOfAppend(prefix + "\n", Join(names, ", "), JoinOffset(names, ", ", i), JoinOffset(names, ", ", i) + |names[i]|);
  }

  /** The keys that have a translation table. */
  const Keys: set<string> :=
    {"API_ERR_TITLE", "API_ERR_MSG", "MISSING_TITLE", "MISSING_MSG", "DISABLED_TITLE", "DISABLED_MSG", "CLOSE_BTN"}

  /**
   * GetLocalizedText: `table` is the current language's table for the known
   * keys; any other key falls through and is returned as it is.
   */
  function GetLocalizedText(table: string -> string, key: string): (r: string)
    ensures key !in Keys ==> r == key
    ensures key in Keys ==> r == table(key)
  {
    if key in Keys then table(key) else key
  }

  /** The table used for every language without its own (the `_` arm of each key). */
  function DefaultTable(key: string): string
  {
    match key
    case "API_ERR_TITLE" => "API Error"
    case "API_ERR_MSG" => "Cannot access ModManager.ShouldActivateMod, please contact the author."
    case "MISSING_TITLE" => "Missing Dependency"
    case "MISSING_MSG" => "Please subscribe to the following MODs:"
    case "DISABLED_TITLE" => "Dependency Disabled"
    case "DISABLED_MSG" => "Dependency library is disabled, please check it in the MOD list:"
    case "CLOSE_BTN" => "[ Click to Close ]"
    case _ => key
  }
}
