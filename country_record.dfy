/** The country record as the list reads it, and the three per-row display helpers
    of the table (native official name, alternative spellings, dialling suffix). */
module CountryRecord {
  import opened Wrappers
  import opened JsString

  /** One value of `name.nativeName`; only its `official` field is read. */
  datatype NativeName = NativeName(official: Option<string>)

  /** `name`: the official name (search and sort key) and the native names, an object
      keyed by language tag, given here as its entries in iteration order. */
  datatype Name = Name(official: string, nativeName: Option<seq<(string, NativeName)>>)

  datatype Flags = Flags(png: string)

  /** `idd`: the international dialling code; `suffixes` may be absent. */
  datatype Idd = Idd(suffixes: Option<seq<string>>)

  /** One record of the fetched list. An entry of `altSpellings` is `None` where the
      array holds `undefined`. */
  datatype Country = Country(
    cca2: string,
    cca3: string,
    name: Name,
    flags: Flags,
    altSpellings: seq<Option<string>>,
    idd: Idd)

  // ---------------------------------------------------------------------------
  // DisplayNativeOfficialName
  // ---------------------------------------------------------------------------

  /** The `official` field of the first native name in iteration order; nothing when
      `nativeName` is absent or has no entry, or the first entry has no `official`. */
  function DisplayNativeOfficialName(c: Country): (r: Option<string>)
    ensures c.name.nativeName.None? || c.name.nativeName.value == [] ==> r == None
    ensures c.name.nativeName.Some? && c.name.nativeName.value != [] ==>
              r == c.name.nativeName.value[0].1.official
  {
    match c.name.nativeName
    case None => None
    case Some(entries) => if entries == [] then None else entries[0].1.official
  }

  /** Only the first native name is read: entries after it never change the result. */
  lemma NativeOfficialNameIgnoresLaterEntries(c: Country, first: (string, NativeName),
                                              rest: seq<(string, NativeName)>)
    requires c.name.nativeName == Some([first] + rest)
    ensures DisplayNativeOfficialName(c) == first.1.official
  {
  }

  // ---------------------------------------------------------------------------
  // formatAltSpellings
  // ---------------------------------------------------------------------------

  /** `Boolean(e)` for an entry: `undefined` and `""` are falsy, every other string truthy. */
  predicate Truthy(e: Option<string>) {
    e.Some? && e.value != ""
  }

  /** `arr.filter(Boolean)`: the truthy entries, in their original order. */
  function KeepTruthy(arr: seq<Option<string>>): (r: seq<string>)
    ensures |r| <= |arr|
    ensures forall i :: 0 <= i < |r| ==> r[i] != "" && Some(r[i]) in arr
  {
    if arr == [] then []
    else (if Truthy(arr[0]) then [arr[0].value] else []) + KeepTruthy(arr[1..])
  }

  /** `arr.filter(Boolean).join(', ')`. */
  function FormatAltSpellings(arr: seq<Option<string>>): string {
    Join(KeepTruthy(arr), ", ")
  }

  /** The kept strings are exactly the non-empty strings of the input. */
  lemma {:induction false} KeepTruthyMembers(arr: seq<Option<string>>, s: string)
    ensures s in KeepTruthy(arr) <==> s != "" && Some(s) in arr
  {
    if arr != [] {
      KeepTruthyMembers(arr[1..], s);
      assert arr == [arr[0]] + arr[1..];
    }
  }

  /** Filtering keeps order: the kept entries of a concatenation are those of the first
      part followed by those of the second. */
  lemma {:induction false} KeepTruthyAppend(a: seq<Option<string>>, b: seq<Option<string>>)
    ensures KeepTruthy(a + b) == KeepTruthy(a) + KeepTruthy(b)
  {
    if a != [] {
      assert (a + b)[1..] == a[1..] + b;
      assert (a + b)[0] == a[0];
      KeepTruthyAppend(a[1..], b);
      var head := if Truthy(a[0]) then [a[0].value] else [];
      assert KeepTruthy(a + b) == head + (KeepTruthy(a[1..]) + KeepTruthy(b));
    } else {
      assert a + b == b;
    }
  }

  /** The formatted text is empty exactly when no entry is truthy (this covers the empty list). */
  lemma FormatAltSpellingsEmptyIff(arr: seq<Option<string>>)
    ensures FormatAltSpellings(arr) == "" <==> forall i :: 0 <= i < |arr| ==> !Truthy(arr[i])
  {
    var kept := KeepTruthy(arr);
    JoinEmptyIff(kept, ", ");
    if kept != [] {
      KeepTruthyMembers(arr, kept[0]);
    } else {
      forall i | 0 <= i < |arr| ensures !Truthy(arr[i]) {
        if Truthy(arr[i]) {
          KeepTruthyMembers(arr, arr[i].value);
        }
      }
    }
  }

  /** A single truthy entry is shown as it is; a falsy one as the empty string. */
  lemma FormatAltSpellingsSingle(e: Option<string>)
    ensures FormatAltSpellings([e]) == if Truthy(e) then e.value else ""
  {
    assert [e][1..] == [];
  }

  /** Formatting a concatenation: the two formatted parts, with one `", "` between
      them when both are non-empty. */
  lemma FormatAltSpellingsAppend(a: seq<Option<string>>, b: seq<Option<string>>)
    ensures FormatAltSpellings(a + b) ==
              if FormatAltSpellings(a) == "" then FormatAltSpellings(b)
              else if FormatAltSpellings(b) == "" then FormatAltSpellings(a)
              else FormatAltSpellings(a) + ", " + FormatAltSpellings(b)
  {
    KeepTruthyAppend(a, b);
    var ka, kb := KeepTruthy(a), KeepTruthy(b);
    JoinEmptyIff(ka, ", ");
    JoinEmptyIff(kb, ", ");
    if ka == [] {
      assert ka + kb == kb;
    } else if kb == [] {
      assert ka + kb == ka;
    } else {
      JoinAppend(ka, kb, ", ");
    }
  }

  /** The length of the formatted text: the kept entries plus two characters per separator. */
  lemma FormatAltSpellingsLength(arr: seq<Option<string>>)
    requires KeepTruthy(arr) != []
    ensures |FormatAltSpellings(arr)| ==
              TotalLength(KeepTruthy(arr)) + 2 * (|KeepTruthy(arr)| - 1)
  {
    JoinLength(KeepTruthy(arr), ", ");
  }

  // ---------------------------------------------------------------------------
  // DisplayIdd
  // ---------------------------------------------------------------------------

  /** `Object.values(country.idd.suffixes || {})[0]`: the first suffix, or nothing when
      `suffixes` is absent or empty. */
  function DisplayIdd(c: Country): (r: Option<string>)
    ensures r.Some? <==> c.idd.suffixes.Some? && c.idd.suffixes.value != []
    ensures r.Some? ==> r.value == c.idd.suffixes.value[0]
  {
    match c.idd.suffixes
    case None => None
    case Some(s) => if s == [] then None else Some(s[0])
  }

  /** Only the first suffix is read: suffixes after it never change the result. */
  lemma DisplayIddIgnoresLaterSuffixes(c: Country, first: string, rest: seq<string>)
    requires c.idd.suffixes == Some([first] + rest)
    ensures DisplayIdd(c) == Some(first)
  {
  }
}
