/** The searching loops of _getopt_internal, proved against the meanings in GetoptSpec. */
module GetoptDecode {
  import opened Wrappers
  import opened GetoptSpec

  /** my_index: the first place of `c` in `s`. */
  method MyIndex(s: string, c: char) returns (r: Option<nat>)
    ensures r == IndexOf(s, c)
  {
    var k := 0;
    while k < |s|
      invariant 0 <= k <= |s| && c !in s[..k]
    {
      if s[k] == c {
        FirstIndexIsUnique(s, c, k);
        return Some(k);
      }
      k := k + 1;
    }
    return None;
  }

  lemma FirstIndexIsUnique(s: string, c: char, k: nat)
    requires k < |s| && s[k] == c && c !in s[..k]
    ensures IndexOf(s, c) == Some(k)
  {
    if k > 0 {
      assert s[0] in s[..k] && s[..k] == [s[0]] + s[1..][..k - 1];
      FirstIndexIsUnique(s[1..], c, k - 1);
    }
  }

  /** The scan for the end of the typed name. */
  method NameEnd(text: string) returns (n: nat)
    ensures n <= |text| && text[..n] == NamePart(text)
  {
    n := 0;
    while n < |text| && text[n] != '='
      invariant n <= |text| && '=' !in text[..n]
    {
      n := n + 1;
    }
    if n < |text| {
      FirstIndexIsUnique(text, '=', n);
    }
  }

  /** The scan of the long-option table for an exact match or abbreviations. */
  method FindLong(table: seq<LongOption>, typed: string) returns (found: Option<nat>, exact: bool, ambig: bool)
    ensures found.Some? ==> found.value < |table|
    ensures Resolve(table, typed)
            == if ambig && !exact then Ambiguous else if found.Some? then Found(found.value) else Unknown
  {
    found, exact, ambig := None, false, false;
    var i := 0;
    while i < |table|
      invariant 0 <= i <= |table| && !exact
      invariant forall j :: 0 <= j < i ==> !Exact(table, typed, j)
      invariant found.None? ==> !ambig && forall j :: 0 <= j < i ==> !Abbreviates(table, typed, j)
      invariant found.Some? ==> found.value < i && Abbreviates(table, typed, found.value)
      invariant found.Some? && !ambig ==> forall j :: 0 <= j < i && Abbreviates(table, typed, j) ==> j == found.value
      invariant ambig ==> exists j :: 0 <= j < i && j != found.value && Abbreviates(table, typed, j)
    {
      if typed <= table[i].name {
        assert Abbreviates(table, typed, i);
        if |typed| == |table[i].name| {
          assert Exact(table, typed, i);
          found, exact := Some(i), true;
          ResolutionIsUnique(table, typed, Resolve(table, typed), Found(i));
          return;
        } else if found.None? {
          found := Some(i);
        } else {
          ambig := true;
        }
      }
      i := i + 1;
    }
    ResolutionIsUnique(table, typed, Resolve(table, typed),
      if ambig then Ambiguous else if found.Some? then Found(found.value) else Unknown);
  }
}
