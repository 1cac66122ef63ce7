/**
 * Hardware addresses, the collector's fixed configuration, and the predicate
 * that decides whether an advertising radio is one of the thermometers.
 */
module Address {
  import opened Common

  // ---------------------------------------------------------------------
  // Normalisation: `a.replace("-", ":").upper()`
  // ---------------------------------------------------------------------

  function NormalizeChar(c: char): char
  {
    UpperChar(if c == '-' then ':' else c)
  }

  /** `a.replace("-", ":").upper()`: colon separators, upper-case hex digits. */
  function Normalize(a: string): (n: string)
    ensures |n| == |a|
    ensures forall i :: 0 <= i < |a| ==> n[i] == NormalizeChar(a[i])
    ensures forall i :: 0 <= i < |n| ==> n[i] != '-' && !IsLowerAscii(n[i])
  {
    seq(|a|, i requires 0 <= i < |a| => NormalizeChar(a[i]))
  }

  /** The character-wise definition is the composition of the two string methods. */
  lemma NormalizeIsReplaceUpper(a: string)
    ensures Normalize(a) == Upper(Replace(a, '-', ':'))
  {
  }

  /** Normalising twice is normalising once. */
  lemma NormalizeIdempotent(a: string)
    ensures Normalize(Normalize(a)) == Normalize(a)
  {
    var n := Normalize(a);
    assert forall i :: 0 <= i < |n| ==> NormalizeChar(n[i]) == n[i];
  }

  /**
   * Two characters spell the same address character: equal, both separators
   * ('-' or ':'), or the same ASCII letter in different case.
   */
  predicate SameAddressChar(x: char, y: char)
  {
    || x == y
    || ((x == '-' || x == ':') && (y == '-' || y == ':'))
    || (IsLowerAscii(x) && y as int == x as int - 32)
    || (IsLowerAscii(y) && x as int == y as int - 32)
  }

  /** Two spellings of one address: same length, same character everywhere up to separator and case. */
  predicate SameAddress(a: string, b: string)
  {
    |a| == |b| && forall i :: 0 <= i < |a| ==> SameAddressChar(a[i], b[i])
  }

  lemma NormalizeCharSame(x: char, y: char)
    ensures NormalizeChar(x) == NormalizeChar(y) <==> SameAddressChar(x, y)
  {
  }

  /** Normalisation identifies exactly the spellings that differ in separators and letter case. */
  lemma NormalizeSameIff(a: string, b: string)
    ensures Normalize(a) == Normalize(b) <==> SameAddress(a, b)
  {
    if SameAddress(a, b) {
      forall i | 0 <= i < |a| ensures Normalize(a)[i] == Normalize(b)[i] {
        NormalizeCharSame(a[i], b[i]);
      }
    }
    if Normalize(a) == Normalize(b) {
      forall i | 0 <= i < |a| ensures SameAddressChar(a[i], b[i]) {
        assert Normalize(a)[i] == Normalize(b)[i];
        NormalizeCharSame(a[i], b[i]);
      }
    }
  }

  // ---------------------------------------------------------------------
  // Configuration (module-level constants of the collector)
  // ---------------------------------------------------------------------

  /** The two bound thermometers, as written in the configuration. */
  const RAW_KNOWN_ADDRS: set<string> := {"A4:C1:38:DD:AC:A7", "A4:C1:38:B9:74:3C"}

  /**
   * The allowlist after its one-time normalisation (empty entries dropped),
   * written out; `KnownAddrsNormalized` proves it is that normalisation.
   */
  const KNOWN_ADDRS: set<string> := {"A4:C1:38:DD:AC:A7", "A4:C1:38:B9:74:3C"}

  /** Friendly names, keyed by normalised address. */
  const DISPLAY_NAMES: map<string, string> :=
    map["A4:C1:38:B9:74:3C" := "Lab inside", "A4:C1:38:DD:AC:A7" := "Lab outside"]

  const TARGET_NAME_KEYWORDS: seq<string> := ["LYWSD03MMC", "MJ_HT_V1", "Xiaomi"]

  /** How many thermometers discovery looks for. */
  const TARGET_COUNT: nat := 2

  /** The notification characteristic that carries the frames. */
  const UUID_TH_NOTIFY: string := "ebe0ccc1-7a0a-4b0c-8a1a-6ff2997da3a6"

  /** An address already in normal form is left as it is. */
  lemma NormalizeNormal(a: string)
    requires forall i :: 0 <= i < |a| ==> a[i] != '-' && !IsLowerAscii(a[i])
    ensures Normalize(a) == a
  {
  }

  /** `{a.replace("-", ":").upper() for a in KNOWN_ADDRS if a}` is the set written out above. */
  lemma KnownAddrsNormalized()
    ensures KNOWN_ADDRS == set a | a in RAW_KNOWN_ADDRS && a != "" :: Normalize(a)
  {
    var outside, inside := "A4:C1:38:DD:AC:A7", "A4:C1:38:B9:74:3C";
    NormalizeNormal(outside);
    NormalizeNormal(inside);
    var normalized := set a | a in RAW_KNOWN_ADDRS && a != "" :: Normalize(a);
    assert outside in RAW_KNOWN_ADDRS && inside in RAW_KNOWN_ADDRS;
    assert outside in normalized && inside in normalized;
    forall x | x in normalized ensures x == outside || x == inside {
      var a :| a in RAW_KNOWN_ADDRS && a != "" && Normalize(a) == x;
      assert a == outside || a == inside;
    }
  }

  // ---------------------------------------------------------------------
  // match_target
  // ---------------------------------------------------------------------

  /** Python truthiness of an optional name: present and non-empty. */
  predicate NonEmptyName(name: Option<string>)
  {
    name.Some? && name.value != ""
  }

  /**
   * `match_target`: the normalised address is in the (non-empty) allowlist,
   * or the name is non-empty and contains one of the keywords.
   */
  function MatchTarget(name: Option<string>, address: string): (ok: bool)
    ensures ok <==> (KNOWN_ADDRS != {} && Normalize(address) in KNOWN_ADDRS)
                    || (NonEmptyName(name) &&
                        exists k, i :: 0 <= k < |TARGET_NAME_KEYWORDS| && OccursAt(name.value, TARGET_NAME_KEYWORDS[k], i))
  {
    var addrOk := if KNOWN_ADDRS != {} then Normalize(address) in KNOWN_ADDRS else false;
    var nameOk := NonEmptyName(name) && exists k | 0 <= k < |TARGET_NAME_KEYWORDS| :: Contains(name.value, TARGET_NAME_KEYWORDS[k]);
    assert NonEmptyName(name) ==> forall k | 0 <= k < |TARGET_NAME_KEYWORDS| ::
      Contains(name.value, TARGET_NAME_KEYWORDS[k]) <==> exists i :: OccursAt(name.value, TARGET_NAME_KEYWORDS[k], i) by {
      if NonEmptyName(name) {
        forall k | 0 <= k < |TARGET_NAME_KEYWORDS| {
          ContainsIff(name.value, TARGET_NAME_KEYWORDS[k]);
        }
      }
    }
    addrOk || nameOk
  }

  /** Whether an advertisement matches does not depend on how its address is spelled. */
  lemma MatchTargetSpelling(name: Option<string>, a: string, b: string)
    requires SameAddress(a, b)
    ensures MatchTarget(name, a) == MatchTarget(name, b)
  {
    NormalizeSameIff(a, b);
  }

  /** Matching an already normalised address (as the discovery callback does) changes nothing. */
  lemma MatchTargetNormalized(name: Option<string>, a: string)
    ensures MatchTarget(name, Normalize(a)) == MatchTarget(name, a)
  {
    NormalizeIdempotent(a);
  }

  /** The hyphenated lower-case and the colon upper-case spelling are one device. */
  lemma SpellingSample()
    ensures Normalize("a4-c1-38-dd-ac-a7") == Normalize("A4:C1:38:DD:AC:A7") == "A4:C1:38:DD:AC:A7"
  {
    NormalizeNormal("A4:C1:38:DD:AC:A7");
    assert SameAddress("a4-c1-38-dd-ac-a7", "A4:C1:38:DD:AC:A7");
    NormalizeSameIff("a4-c1-38-dd-ac-a7", "A4:C1:38:DD:AC:A7");
  }

  /** A bound thermometer is recognised by its address alone, however it is spelled. */
  lemma MatchByAddressSample()
    ensures MatchTarget(None, "a4-c1-38-dd-ac-a7")
  {
    SpellingSample();
  }

  /** An unknown address is recognised by a keyword in its name. */
  lemma MatchByNameSample()
    ensures MatchTarget(Some("LYWSD03MMC"), "00:00:00:00:00:00")
  {
    assert OccursAt("LYWSD03MMC", TARGET_NAME_KEYWORDS[0], 0);
  }
}
