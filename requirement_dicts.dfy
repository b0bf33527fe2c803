/** The requirement profile of one course offering, as the loop of `mk_dicts` derives it from
    the offering's `designation`, its `attributes` string and the list of academic plans the
    offering counts toward. The database query around it and the UPDATE that stores the
    result are not part of this model. */
module RequirementDicts {

  import opened Options
  import opened Text
  import opened OrderedDicts

  /** The dict stored in the `requirements` column: always exactly these four keys.
      `pways` is a Pathways area code or `None`; `equiv` is `None` when the attributes
      string could not be read as key/value pairs. */
  datatype Requirements = Requirements(
    pways: Option<string>,
    copt: bool,
    equiv: Option<seq<string>>,
    plans: seq<string>)

  /** The Pathways pattern `^[RF](..)[CDR]$` under `re.match`: group 1 when it matches. The
      two middle characters are `.`, which matches anything but a newline. */
  function Pathway(designation: string): (r: Option<string>)
    ensures r.Some? <==>
      && |designation| == 4
      && designation[0] in "RF" && designation[3] in "CDR"
      && designation[1] != '\n' && designation[2] != '\n'
    ensures r.Some? ==> |r.value| == 2 && designation == [designation[0]] + r.value + [designation[3]]
  {
    if && |designation| == 4
       && designation[0] in "RF" && designation[3] in "CDR"
       && designation[1] != '\n' && designation[2] != '\n'
    then
      assert designation == [designation[0]] + designation[1..3] + [designation[3]];
      Some(designation[1..3])
    else None
  }

  /** Whether the course has the Common Core option. */
  function CommonCoreOption(designation: string, attributes: string): bool {
    StartsWith(designation, "CO") || Contains(attributes, "COPT")
  }

  /** COPT holds exactly when the designation starts with `CO` or `COPT` occurs somewhere in
      the attributes string. */
  lemma CommonCoreOptionIff(designation: string, attributes: string)
    ensures CommonCoreOption(designation, attributes) <==>
      (|designation| >= 2 && designation[0] == 'C' && designation[1] == 'O')
      || exists i: nat :: OccursAt(attributes, "COPT", i)
  {
    ContainsIff(attributes, "COPT");
  }

  /** `part.strip()` for every part, in order. */
  function StripAll(parts: seq<string>): (r: seq<string>)
    ensures |r| == |parts| && forall i :: 0 <= i < |parts| ==> r[i] == Strip(parts[i])
  {
    seq(|parts|, i requires 0 <= i < |parts| => Strip(parts[i]))
  }

  /** The strings that are not empty, in order. */
  function NonEmpty(ss: seq<string>): (r: seq<string>)
    ensures |r| <= |ss|
    ensures forall j :: 0 <= j < |r| ==> r[j] != [] && r[j] in ss
  {
    if ss == [] then []
    else
      var r := NonEmpty(ss[..|ss| - 1]);
      if ss[|ss| - 1] == [] then r else r + [ss[|ss| - 1]]
  }

  /** The parts of `attributes.split(';')` that survive `if part.strip()`, each stripped. */
  function NonBlankParts(parts: seq<string>): (r: seq<string>)
    ensures |r| <= |parts|
    ensures forall j :: 0 <= j < |r| ==> r[j] != [] && r[j] in StripAll(parts)
  {
    NonEmpty(StripAll(parts))
  }

  /** Every non-empty string is kept. */
  lemma {:induction false} NonEmptyKeeps(ss: seq<string>)
    ensures forall i :: 0 <= i < |ss| && ss[i] != [] ==> ss[i] in NonEmpty(ss)
  {
    if ss != [] {
      var init := ss[..|ss| - 1];
      NonEmptyKeeps(init);
      forall i | 0 <= i < |init| && ss[i] != [] ensures ss[i] in NonEmpty(ss) {
        assert ss[i] == init[i];
      }
    }
  }

  /** Keeping the non-empty strings of a prefix gives a prefix of the result. */
  lemma {:induction false} NonEmptyPrefix(ss: seq<string>, n: nat)
    requires n <= |ss|
    ensures var r := NonEmpty(ss[..n]);
      |r| <= |NonEmpty(ss)| && NonEmpty(ss)[..|r|] == r
    decreases |ss| - n
  {
    if n < |ss| {
      NonEmptyPrefix(ss, n + 1);
      var r, r' := NonEmpty(ss[..n]), NonEmpty(ss[..n + 1]);
      assert r'[..|r|] == r by {
        assert ss[..n + 1][..n] == ss[..n];
      }
      PrefixOfPrefix(NonEmpty(ss), r', r);
    } else {
      assert ss[..n] == ss;
    }
  }

  lemma PrefixOfPrefix<T>(a: seq<T>, b: seq<T>, c: seq<T>)
    requires |b| <= |a| && a[..|b|] == b && |c| <= |b| && b[..|c|] == c
    ensures a[..|c|] == c
  {
    assert a[..|c|] == a[..|b|][..|c|];
  }

  /** A non-empty string lands right after the non-empty strings before it. */
  lemma NonEmptyAt(ss: seq<string>, i: nat)
    requires i < |ss| && ss[i] != []
    ensures var k := |NonEmpty(ss[..i])|; k < |NonEmpty(ss)| && NonEmpty(ss)[k] == ss[i]
  {
    var r := NonEmpty(ss[..i]);
    assert NonEmpty(ss[..i + 1]) == r + [ss[i]] by {
      assert ss[..i + 1][..i] == ss[..i];
    }
    NonEmptyPrefix(ss, i + 1);
  }

  /** Every part that is not all white space is kept, stripped. */
  lemma NonBlankPartsKeeps(parts: seq<string>)
    ensures forall i :: 0 <= i < |parts| && !AllSpace(parts[i]) ==> Strip(parts[i]) in NonBlankParts(parts)
  {
    NonEmptyKeeps(StripAll(parts));
    forall i | 0 <= i < |parts| && !AllSpace(parts[i]) ensures Strip(parts[i]) != [] {
      StripEmptyIff(parts[i]);
    }
  }

  /** The kept parts are in input order: the part at position `i`, when not all white
      space, is kept at the position given by the number of parts kept before it. */
  lemma NonBlankPartsAt(parts: seq<string>, i: nat)
    requires i < |parts| && !AllSpace(parts[i])
    ensures var k := |NonBlankParts(parts[..i])|;
      k < |NonBlankParts(parts)| && NonBlankParts(parts)[k] == Strip(parts[i])
  {
    StripEmptyIff(parts[i]);
    assert StripAll(parts[..i]) == StripAll(parts)[..i];
    NonEmptyAt(StripAll(parts), i);
  }

  /** `part.split(':', 1)` for every part, in order; `None` as soon as one part has no `:`,
      which is where `dict(...)` raises ValueError. */
  function KeyValues(parts: seq<string>): (r: Option<seq<(string, string)>>)
    ensures r.Some? ==> |r.value| == |parts| && forall i :: 0 <= i < |parts| ==>
      ':' !in r.value[i].0 && parts[i] == r.value[i].0 + ":" + r.value[i].1
  {
    if parts == [] then Some([])
    else
      var init := parts[..|parts| - 1];
      match KeyValues(init)
      case None => None
      case Some(kvs) =>
        match SplitFirst(parts[|parts| - 1], ':')
        case None => None
        case Some(kv) =>
          assert forall i :: 0 <= i < |init| ==> parts[i] == init[i];
          Some(kvs + [kv])
  }

  /** The key/value pairs of an attributes string, in the order they are written. */
  function AttributePairs(attributes: string): Option<seq<(string, string)>> {
    KeyValues(NonBlankParts(Split(attributes, ';')))
  }

  /** When the attributes string reads, every pair is one of its `;`-parts, stripped, written
      as key, `:`, value. */
  lemma AttributePairsFromParts(attributes: string, kvs: seq<(string, string)>)
    requires AttributePairs(attributes) == Some(kvs)
    ensures forall j :: 0 <= j < |kvs| ==> kvs[j].0 + ":" + kvs[j].1 in StripAll(Split(attributes, ';'))
  {
  }

  /** When the attributes string reads, its pairs are its non-blank `;`-parts in order: the
      part at position `i`, stripped, is pair number `k` written as key, `:`, value, where `k`
      counts the non-blank parts before it. */
  lemma AttributePairsMeaning(attributes: string, kvs: seq<(string, string)>)
    requires AttributePairs(attributes) == Some(kvs)
    ensures var parts := Split(attributes, ';');
      forall i :: 0 <= i < |parts| && !AllSpace(parts[i]) ==>
        var k := |NonBlankParts(parts[..i])|;
        k < |kvs| && ':' !in kvs[k].0 && Strip(parts[i]) == kvs[k].0 + ":" + kvs[k].1
  {
    KeyValuesAll(Split(attributes, ';'), kvs);
  }

  /** Every part's pair: each non-blank part `i`, stripped, is read as the pair at its kept
      position. */
  lemma KeyValuesAll(parts: seq<string>, kvs: seq<(string, string)>)
    requires KeyValues(NonBlankParts(parts)) == Some(kvs)
    ensures forall i :: 0 <= i < |parts| && !AllSpace(parts[i]) ==>
      var k := |NonBlankParts(parts[..i])|;
      k < |kvs| && ':' !in kvs[k].0 && Strip(parts[i]) == kvs[k].0 + ":" + kvs[k].1
  {
    forall i | 0 <= i < |parts| && !AllSpace(parts[i])
      ensures var k := |NonBlankParts(parts[..i])|;
        k < |kvs| && ':' !in kvs[k].0 && Strip(parts[i]) == kvs[k].0 + ":" + kvs[k].1
    {
      KeyValuesAt(parts, kvs, i);
    }
  }

  /** One part's pair: the stripped part `i` is read as the pair at its kept position. */
  lemma KeyValuesAt(parts: seq<string>, kvs: seq<(string, string)>, i: nat)
    requires KeyValues(NonBlankParts(parts)) == Some(kvs)
    requires i < |parts| && !AllSpace(parts[i])
    ensures var k := |NonBlankParts(parts[..i])|;
      k < |kvs| && ':' !in kvs[k].0 && Strip(parts[i]) == kvs[k].0 + ":" + kvs[k].1
  {
    NonBlankPartsAt(parts, i);
  }

  /** The keys that start with `ME`, in order. */
  function MajorKeys(keys: seq<string>): (r: seq<string>)
    ensures forall i :: 0 <= i < |r| ==> r[i] in keys && StartsWith(r[i], "ME")
    ensures forall i :: 0 <= i < |keys| && StartsWith(keys[i], "ME") ==> keys[i] in r
    ensures NoDuplicates(keys) ==> NoDuplicates(r) && InOrderOf(r, keys)
  {
    if keys == [] then []
    else
      var init, x := keys[..|keys| - 1], keys[|keys| - 1];
      var r := MajorKeys(init);
      assert keys == init + [x];
      assert forall i :: 0 <= i < |keys| - 1 ==> keys[i] == init[i];
      assert NoDuplicates(keys) ==> NoDuplicates(init) && x !in init;
      assert NoDuplicates(keys) ==> InOrderOf(r, keys) && InOrderOf(r + [x], keys) by {
        if NoDuplicates(keys) { InOrderSnoc(r, init, x); }
      }
      if StartsWith(x, "ME") then r + [x] else r
  }

  /** `[v for k, v in d.items() if k.startswith('ME')]`. */
  function MajorValues(d: Dict<string, string>): (r: seq<string>)
    ensures |r| == |MajorKeys(KeysOf(d))|
  {
    if d == [] then []
    else
      assert KeysOf(d)[..|d| - 1] == KeysOf(d[..|d| - 1]);
      var r := MajorValues(d[..|d| - 1]);
      if StartsWith(d[|d| - 1].0, "ME") then r + [d[|d| - 1].1] else r
  }

  /** The `equiv` entry: the Major Equivalency names of the attributes string. */
  function MajorEquivalents(attributes: string): Option<seq<string>> {
    match AttributePairs(attributes)
    case None => None
    case Some(kvs) => Some(MajorValues(FromPairs(kvs)))
  }

  /** The requirements dict of one course: `attributes` is the nullable column value and
      `plans` the aggregated plan list, copied as it is. */
  function MkRequirements(designation: string, attributes: Option<string>, plans: seq<string>): (r: Requirements)
    ensures r.plans == plans
    ensures r.pways.Some? ==> |r.pways.value| == 2
  {
    var attrs := if attributes.Some? then attributes.value else "";
    Requirements(Pathway(designation), CommonCoreOption(designation, attrs), MajorEquivalents(attrs), plans)
  }

  /** A missing attributes value reads like an empty one, and gives an empty `equiv` list. */
  lemma MissingAttributes(designation: string, plans: seq<string>)
    ensures MkRequirements(designation, None, plans) == MkRequirements(designation, Some(""), plans)
    ensures MkRequirements(designation, None, plans).equiv == Some([])
    ensures MkRequirements(designation, None, plans).copt <==> StartsWith(designation, "CO")
  {
    assert Split("", ';') == [""];
    assert Strip("") == [];
  }

  /** A part that makes `dict(...)` raise: not blank, yet without a `:`. */
  predicate Malformed(part: string) {
    !AllSpace(part) && ':' !in part
  }

  /** Whether some part is malformed, scanning from the end as `KeyValues` does. */
  predicate AnyMalformed(parts: seq<string>) {
    parts != [] && (AnyMalformed(parts[..|parts| - 1]) || Malformed(parts[|parts| - 1]))
  }

  lemma {:induction false} AnyMalformedIff(parts: seq<string>)
    ensures AnyMalformed(parts) <==> exists i :: 0 <= i < |parts| && Malformed(parts[i])
  {
    if parts != [] {
      var init := parts[..|parts| - 1];
      AnyMalformedIff(init);
      if exists i :: 0 <= i < |parts| && Malformed(parts[i]) {
        var i :| 0 <= i < |parts| && Malformed(parts[i]);
        if i < |init| {
          assert Malformed(init[i]) by { assert init[i] == parts[i]; }
        }
      }
      if exists i :: 0 <= i < |init| && Malformed(init[i]) {
        var i :| 0 <= i < |init| && Malformed(init[i]);
        assert Malformed(parts[i]) by { assert parts[i] == init[i]; }
      }
    }
  }

  /** The non-blank parts of `parts` are those of all but its last part, then the last one stripped if it is not blank. */
  lemma NonBlankPartsSnoc(parts: seq<string>)
    requires parts != []
    ensures var p := Strip(parts[|parts| - 1]);
      NonBlankParts(parts) == NonBlankParts(parts[..|parts| - 1]) + (if p == [] then [] else [p])
  {
    assert StripAll(parts)[..|parts| - 1] == StripAll(parts[..|parts| - 1]);
  }

  /** Appending one part to the pairs makes them fail exactly when it has no `:`. */
  lemma KeyValuesSnoc(parts: seq<string>, p: string)
    ensures KeyValues(parts + [p]).None? <==> KeyValues(parts).None? || ':' !in p
  {
    assert (parts + [p])[..|parts|] == parts;
  }

  /** Reading the non-blank parts as key/value pairs fails exactly when a part is malformed. */
  lemma {:induction false} KeyValuesNoneIff(parts: seq<string>)
    ensures KeyValues(NonBlankParts(parts)).None? <==> AnyMalformed(parts)
  {
    if parts != [] {
      var init, last := parts[..|parts| - 1], parts[|parts| - 1];
      KeyValuesNoneIff(init);
      var nb, p := NonBlankParts(init), Strip(last);
      assert Malformed(last) <==> p != [] && ':' !in p by {
        StripEmptyIff(last);
        StripKeeps(last, ':');
      }
      NonBlankPartsSnoc(parts);
      assert AnyMalformed(parts) <==> AnyMalformed(init) || Malformed(last);
      if p == [] {
        assert NonBlankParts(parts) == nb;
      } else {
        assert NonBlankParts(parts) == nb + [p];
        KeyValuesSnoc(nb, p);
      }
    }
  }

  lemma MajorEquivalentsScan(attributes: string)
    ensures MajorEquivalents(attributes).None? <==> AnyMalformed(Split(attributes, ';'))
  {
    KeyValuesNoneIff(Split(attributes, ';'));
  }

  /** `equiv` is `None` exactly when some non-blank `;`-separated part has no `:`. */
  lemma MajorEquivalentsNoneIff(attributes: string)
    ensures MajorEquivalents(attributes).None? <==>
      exists p :: p in Split(attributes, ';') && Malformed(p)
  {
    var parts := Split(attributes, ';');
    MajorEquivalentsScan(attributes);
    AnyMalformedIff(parts);
    if exists i :: 0 <= i < |parts| && Malformed(parts[i]) {
      var i :| 0 <= i < |parts| && Malformed(parts[i]);
      assert parts[i] in parts;
    }
    if exists p :: p in parts && Malformed(p) {
      var p :| p in parts && Malformed(p);
      MalformedAt(parts, p);
    }
  }

  lemma MalformedAt(parts: seq<string>, p: string)
    requires p in parts && Malformed(p)
    ensures exists i :: 0 <= i < |parts| && Malformed(parts[i])
  {
    var i :| 0 <= i < |parts| && parts[i] == p;
  }

  lemma {:induction false} MajorValuesMeaning(d: Dict<string, string>)
    requires UniqueKeys(d)
    ensures var keys := MajorKeys(KeysOf(d));
      |MajorValues(d)| == |keys| &&
      forall i :: 0 <= i < |keys| ==> Get(d, keys[i]) == Some(MajorValues(d)[i])
  {
    if d != [] {
      var init, last := d[..|d| - 1], d[|d| - 1];
      KeysOfSnoc(init, last);
      assert d == init + [last];
      assert KeysOf(d)[..|d| - 1] == KeysOf(init);
      assert UniqueKeys(init);
      MajorValuesMeaning(init);
      var keys0 := MajorKeys(KeysOf(init));
      var keys := MajorKeys(KeysOf(d));
      assert last.0 !in KeysOf(init);
      forall i | 0 <= i < |keys0|
        ensures Get(d, keys0[i]) == Get(init, keys0[i])
      {
        assert keys0[i] in KeysOf(init);
      }
    }
  }

  /** When the attributes string reads as key/value pairs, `equiv` lists, for each distinct
      key starting with `ME` in the order the keys first appear, the value given LAST for
      that key. */
  lemma MajorEquivalentsMeaning(attributes: string, kvs: seq<(string, string)>)
    requires AttributePairs(attributes) == Some(kvs)
    ensures MajorEquivalents(attributes).Some?
    ensures var keys := MajorKeys(Distinct(KeysOf(kvs)));
      var names := MajorEquivalents(attributes).value;
      |names| == |keys| && forall i :: 0 <= i < |keys| ==> Get(kvs, keys[i]) == Some(names[i])
  {
    var d := FromPairs(kvs);
    FromPairsKeys(kvs);
    MajorValuesMeaning(d);
    var keys := MajorKeys(Distinct(KeysOf(kvs)));
    forall i | 0 <= i < |keys| ensures Get(kvs, keys[i]) == Get(d, keys[i]) {
      FromPairsGet(kvs, keys[i]);
    }
  }
}
