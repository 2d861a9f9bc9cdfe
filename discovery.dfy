/** Key discovery (src/main.rs:91-112): the top-level key names of
    HKEY_CLASSES_ROOT are visited in enumeration order; each name starting
    with "Firefox" is split by the regex `^Firefox(.+?)-(.+?)$` into a
    category (e.g. "HTML", "URL") and an installation id. Every category is
    appended to `key_types`; `install_id` is overwritten, so the last match
    wins. A "Firefox" name the regex does not fit makes `captures(..).unwrap()`
    panic, modelled as an error carrying that name. */
module Discovery {
  import opened Wrappers
  import opened Text

  /** The key name a category and an installation id are read back from. */
  function KeyName(category: string, installId: string): string {
    KeyPrefix + category + "-" + installId
  }

  /** What the two capture groups of `^Firefox(.+?)-(.+?)$` can hold: both
      non-empty and free of line feeds, and the lazy first group ends at the
      first '-' that has a character before it, so the category holds no '-'
      after its first character. */
  predicate IsCapture(category: string, installId: string) {
    && |category| >= 1 && |installId| >= 1
    && (forall k :: 1 <= k < |category| ==> category[k] != '-')
    && NoNewline(category, 0, |category|)
    && NoNewline(installId, 0, |installId|)
  }

  /** The first '-' at or after `p` that still has a character after it. */
  function DashFrom(name: string, p: nat): (r: Option<nat>)
    ensures r.Some? ==> && p <= r.value && r.value + 2 <= |name| && name[r.value] == '-'
                        && forall q :: p <= q < r.value ==> name[q] != '-'
    ensures r.None? ==> forall q :: p <= q && q + 2 <= |name| ==> name[q] != '-'
    decreases |name| - p
  {
    if p + 2 > |name| then None
    else if name[p] == '-' then Some(p)
    else DashFrom(name, p + 1)
  }

  /** `ff_re.captures(name)` (src/main.rs:91, :101): the (category, install id)
      pair, or None when the regex does not match. */
  function SplitKeyName(name: string): (r: Option<(string, string)>)
    ensures r.Some? ==> name == KeyName(r.value.0, r.value.1) && IsCapture(r.value.0, r.value.1)
    ensures r.None? <==> || !StartsWith(name, KeyPrefix)
                         || !NoNewline(name, |KeyPrefix|, |name|)
                         || forall q :: |KeyPrefix| < q && q + 2 <= |name| ==> name[q] != '-'
  {
    if StartsWith(name, KeyPrefix) && NoNewline(name, |KeyPrefix|, |name|) then
      match DashFrom(name, |KeyPrefix| + 1)
      case Some(p) =>
        var category, installId := name[|KeyPrefix|..p], name[p + 1..];
        assert name == KeyName(category, installId);
        Some((category, installId))
      case None => None
    else None
  }

  /** Splitting inverts joining: every pair the regex can capture is read
      back from the key name it forms. */
  lemma SplitJoin(category: string, installId: string)
    requires IsCapture(category, installId)
    ensures SplitKeyName(KeyName(category, installId)) == Some((category, installId))
  {
    var name := KeyName(category, installId);
    var p := |KeyPrefix| + |category|;
    assert name[..|KeyPrefix|] == KeyPrefix;
    assert name[p] == '-';
    assert forall q :: |KeyPrefix| < q < p ==> name[q] == category[q - |KeyPrefix|];
    assert forall q :: |KeyPrefix| <= q < |name| && q != p ==> name[q] != '\n' by {
      forall q | |KeyPrefix| <= q < |name| && q != p
        ensures name[q] != '\n'
      {
        if q < p {
          assert name[q] == category[q - |KeyPrefix|];
        } else {
          assert name[q] == installId[q - p - 1];
        }
      }
    }
    assert DashFrom(name, |KeyPrefix| + 1) == Some(p);
    assert name[|KeyPrefix|..p] == category;
    assert name[p + 1..] == installId;
  }

  /** A name the split rejects is not formed by any pair the regex could
      capture, so rejecting it is not a false negative of the scanner. */
  lemma RejectedHasNoCapture(name: string, category: string, installId: string)
    requires SplitKeyName(name).None?
    requires IsCapture(category, installId)
    ensures name != KeyName(category, installId)
  {
    SplitJoin(category, installId);
  }

  /** The name Firefox registers for its HTML association splits into its
      category and install id. */
  lemma HtmlKeyNameSplits()
    ensures SplitKeyName("FirefoxHTML-ABCDEF") == Some(("HTML", "ABCDEF"))
  {
    SplitJoin("HTML", "ABCDEF");
    assert KeyName("HTML", "ABCDEF") == "FirefoxHTML-ABCDEF";
  }

  /** A "Firefox" name with no category is rejected, so the service panics:
      the `warn!` branches at src/main.rs:105 and :110 are never reached. */
  lemma NameWithoutCategoryRejected()
    ensures SplitKeyName("Firefox-ABCDEF") == None
  {
    var name := "Firefox-ABCDEF";
    assert forall q :: |KeyPrefix| < q < |name| ==> name[q] != '-';
  }

  /** A "Firefox" name the regex does not fit: `captures(..).unwrap()` panics. */
  predicate Rejected(name: string) {
    StartsWith(name, KeyPrefix) && SplitKeyName(name).None?
  }

  /** The (category, install id) pairs of the names the regex fits, in
      enumeration order. */
  function Splits(names: seq<string>): seq<(string, string)>
  {
    if names == [] then []
    else
      Splits(names[..|names| - 1])
      + match SplitKeyName(names[|names| - 1]) case Some(pair) => [pair] case None => []
  }

  /** The install id of the last pair, or "" when there is none. */
  function LastInstallId(pairs: seq<(string, string)>): string {
    if pairs == [] then "" else pairs[|pairs| - 1].1
  }

  /** The categories of `pairs`, in order. */
  function Categories(pairs: seq<(string, string)>): (r: seq<string>)
    ensures |r| == |pairs| && forall k :: 0 <= k < |pairs| ==> r[k] == pairs[k].0
  {
    seq(|pairs|, k requires 0 <= k < |pairs| => pairs[k].0)
  }

  datatype Discovered = Discovered(keyTypes: seq<string>, installId: string)

  /** The discovery loop of `service_main`: either the first rejected name
      (the panic), or the categories of all matching names in enumeration
      order together with the install id of the last match. */
  method Discover(names: seq<string>) returns (r: Result<Discovered, string>)
    ensures r.Err? <==> exists i :: 0 <= i < |names| && Rejected(names[i])
    ensures r.Err? ==> exists i :: && 0 <= i < |names| && Rejected(names[i]) && r.error == names[i]
                                   && forall k :: 0 <= k < i ==> !Rejected(names[k])
    ensures r.Ok? ==> && |r.value.keyTypes| == |Splits(names)|
                      && forall k :: 0 <= k < |Splits(names)| ==> r.value.keyTypes[k] == Splits(names)[k].0
    ensures r.Ok? ==> r.value.keyTypes == Categories(Splits(names))
    ensures r.Ok? ==> r.value.installId == LastInstallId(Splits(names))
  {
    var keyTypes: seq<string> := [];
    var installId := "";
    var i := 0;
    while i < |names|
      invariant 0 <= i <= |names|
      invariant forall k :: 0 <= k < i ==> !Rejected(names[k])
      invariant |keyTypes| == |Splits(names[..i])|
      invariant forall k :: 0 <= k < |keyTypes| ==> keyTypes[k] == Splits(names[..i])[k].0
      invariant installId == LastInstallId(Splits(names[..i]))
    {
      var name := names[i];
      assert names[..i + 1][..i] == names[..i];
      if StartsWith(name, KeyPrefix) {
        match SplitKeyName(name)
        case None =>
          return Err(name);
        case Some((category, id)) =>
          keyTypes := keyTypes + [category];
          installId := id;
      }
      i := i + 1;
    }
    assert names[..i] == names;
    return Ok(Discovered(keyTypes, installId));
  }

  /** Every pair discovery keeps comes from a name in the enumeration, and is
      a pair the regex can capture. */
  lemma {:induction false} SplitsSound(names: seq<string>)
    ensures forall k :: 0 <= k < |Splits(names)| ==>
              IsCapture(Splits(names)[k].0, Splits(names)[k].1)
              && KeyName(Splits(names)[k].0, Splits(names)[k].1) in names
  {
    if names != [] {
      var init := names[..|names| - 1];
      SplitsSound(init);
      assert forall n :: n in init ==> n in names;
    }
  }

  /** With no rejected name, discovery finds nothing exactly when no name
      starts with "Firefox": then `install_id` stays "" and the service loop
      is never entered (src/main.rs:114, :188-191). */
  lemma {:induction false} InstallIdEmptyIff(names: seq<string>)
    requires forall i :: 0 <= i < |names| ==> !Rejected(names[i])
    ensures LastInstallId(Splits(names)) == "" <==>
            forall i :: 0 <= i < |names| ==> !StartsWith(names[i], KeyPrefix)
  {
    if names != [] {
      var init, last := names[..|names| - 1], names[|names| - 1];
      InstallIdEmptyIff(init);
      SplitsSound(names);
      if StartsWith(last, KeyPrefix) {
        assert SplitKeyName(last).Some?;
        assert LastInstallId(Splits(names)) == SplitKeyName(last).value.1;
      } else {
        assert SplitKeyName(last).None?;
        assert Splits(names) == Splits(init);
        assert forall i :: 0 <= i < |init| ==> init[i] == names[i];
      }
    }
  }
}
