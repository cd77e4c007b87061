/** The month-name table: abbreviations and full names, lower case, each
    with the month number it stands for. */
module Months {
  import opened Wrappers
  import opened Chars

  /** The name table: entry `k` lists the lower-case names (abbreviation
      and full name) of month `k + 1`. */
  const MonthNames: seq<seq<string>> := [
    ["jan", "january"],
    ["feb", "february"],
    ["mar", "march"],
    ["apr", "april"],
    ["may"],
    ["jun", "june"],
    ["jul", "july"],
    ["aug", "august"],
    ["sep", "sept", "september"],
    ["oct", "october"],
    ["nov", "november"],
    ["dec", "december"]
  ]

  /** The first month from month `k + 1` on that lists `key` among its
      names (a dictionary `get` on the flattened table). */
  function Find(key: string, k: nat): (m: Option<int>)
    requires k <= |MonthNames|
    decreases |MonthNames| - k
    ensures m.Some? ==> k < m.value <= |MonthNames| && key in MonthNames[m.value - 1]
    ensures m.None? ==> forall j :: k <= j < |MonthNames| ==> key !in MonthNames[j]
  {
    if k == |MonthNames| then None
    else if key in MonthNames[k] then Some(k + 1)
    else Find(key, k + 1)
  }

  /** `MONTH_MAP.get(name.lower())`: month names are looked up
      case-insensitively; a name found denotes a month 1..12 whose names
      include it, and a name not found is no month's name. */
  function LookupMonth(name: string): (m: Option<int>)
    ensures m.Some? ==> 1 <= m.value <= 12 && Lower(name) in MonthNames[m.value - 1]
    ensures m.None? ==> forall j :: 0 <= j < |MonthNames| ==> Lower(name) !in MonthNames[j]
  {
    Find(Lower(name), 0)
  }

  /** Names that agree up to case denote the same month. */
  lemma LookupIgnoresCase(a: string, b: string)
    requires Lower(a) == Lower(b)
    ensures LookupMonth(a) == LookupMonth(b)
  {
  }
}
