/** MAC address validation and normalisation (services/portal/src/utils/macValidator.js). */
module MacValidator {
  import opened Wrappers
  import opened Text

  predicate IsHexDigit(c: char) { '0' <= c <= '9' || 'a' <= c <= 'f' || 'A' <= c <= 'F' }

  predicate IsLowerHexDigit(c: char) { '0' <= c <= '9' || 'a' <= c <= 'f' }

  predicate IsUpperHexDigit(c: char) { '0' <= c <= '9' || 'A' <= c <= 'F' }

  /** The character class `[:-]`. */
  predicate IsDelimiter(c: char) { c == ':' || c == '-' }

  predicate AllHex(s: string) { forall i :: 0 <= i < |s| ==> IsHexDigit(s[i]) }

  predicate AllLowerHex(s: string) { forall i :: 0 <= i < |s| ==> IsLowerHexDigit(s[i]) }

  /** The anchored pattern `^([0-9A-Fa-f]{2}[:-]){n}([0-9A-Fa-f]{2})$`, group by group. */
  predicate DelimitedPairs(s: string, n: nat)
    decreases n
  {
    if n == 0 then |s| == 2 && IsHexDigit(s[0]) && IsHexDigit(s[1])
    else |s| >= 3 && IsHexDigit(s[0]) && IsHexDigit(s[1]) && IsDelimiter(s[2]) && DelimitedPairs(s[3..], n - 1)
  }

  /** MAC_REGEX: six hex pairs separated by `:` or `-` (separators may be mixed). */
  predicate MatchesDelimited(s: string) { DelimitedPairs(s, 5) }

  /** MAC_REGEX_NO_DELIMITER: twelve hex digits. */
  predicate MatchesUndelimited(s: string) { |s| == 12 && AllHex(s) }

  /** What position `i` of a delimited MAC must hold: a separator at every third place. */
  predicate DelimitedSlot(c: char, i: int)
  {
    if i % 3 == 2 then IsDelimiter(c) else IsHexDigit(c)
  }

  /** The group-by-group pattern is the position-by-position shape. */
  lemma {:induction false} DelimitedPairsShape(s: string, n: nat)
    ensures DelimitedPairs(s, n) <==> |s| == 3 * n + 2 && forall i :: 0 <= i < |s| ==> DelimitedSlot(s[i], i)
    decreases n
  {
    if n > 0 && |s| >= 3 {
      DelimitedPairsShape(s[3..], n - 1);
      assert forall i :: 3 <= i < |s| ==> (DelimitedSlot(s[i], i) <==> DelimitedSlot(s[3..][i - 3], i - 3));
      if forall i :: 0 <= i < |s| ==> DelimitedSlot(s[i], i) {
        assert DelimitedSlot(s[0], 0) && DelimitedSlot(s[1], 1) && DelimitedSlot(s[2], 2);
        forall i | 0 <= i < |s[3..]| ensures DelimitedSlot(s[3..][i], i) {
          assert DelimitedSlot(s[i + 3], i + 3);
        }
      }
    }
  }

  /** validateMAC: a string that matches one of the two patterns; a missing,
      non-string or empty argument is rejected (`None` is any non-string value). */
  function ValidateMAC(mac: Option<string>): (ok: bool)
    ensures ok <==> (mac.Some? &&
                     ((|mac.value| == 17 && forall i :: 0 <= i < 17 ==> DelimitedSlot(mac.value[i], i))
                      || MatchesUndelimited(mac.value)))
    ensures ok ==> mac.Some? && mac.value != ""
  {
    match mac
    case None => false
    case Some(s) =>
      DelimitedPairsShape(s, 5);
      if s == "" then false
      else if MatchesDelimited(s) then true
      else if MatchesUndelimited(s) then true
      else false
  }

  /** `mac.replace(/[:-]/g, '')`. */
  function StripDelimiters(s: string): (r: string)
    ensures |r| <= |s|
  {
    if s == [] then [] else (if IsDelimiter(s[0]) then [] else [s[0]]) + StripDelimiters(s[1..])
  }

  lemma {:induction false} StripAppend(a: string, b: string)
    ensures StripDelimiters(a + b) == StripDelimiters(a) + StripDelimiters(b)
  {
    if a != [] {
      assert (a + b)[0] == a[0];
      assert (a + b)[1..] == a[1..] + b;
      StripAppend(a[1..], b);
      assert StripDelimiters(a + b)
          == (if IsDelimiter(a[0]) then [] else [a[0]]) + StripDelimiters(a[1..] + b);
    } else {
      assert a + b == b;
    }
  }

  lemma {:induction false} StripWithoutDelimiters(s: string)
    requires forall i :: 0 <= i < |s| ==> !IsDelimiter(s[i])
    ensures StripDelimiters(s) == s
  {
    if s != [] {
      StripWithoutDelimiters(s[1..]);
    }
  }

  /** Stripping a delimited MAC leaves its hex digits: two per group. */
  lemma {:induction false} StripDelimitedPairs(s: string, n: nat)
    requires DelimitedPairs(s, n)
    ensures |StripDelimiters(s)| == 2 * n + 2 && AllHex(StripDelimiters(s))
    decreases n
  {
    if n == 0 {
      StripWithoutDelimiters(s);
    } else {
      assert s == s[..2] + [s[2]] + s[3..];
      StripAppend(s[..2] + [s[2]], s[3..]);
      StripAppend(s[..2], [s[2]]);
      StripWithoutDelimiters(s[..2]);
      StripDelimitedPairs(s[3..], n - 1);
    }
  }

  /** `s.match(/.{1,2}/g).join(':')`: cut into pairs (the last may be shorter) and join with colons. */
  function PairUp(s: string): string
    decreases |s|
  {
    if |s| <= 2 then s else s[..2] + ":" + PairUp(s[2..])
  }

  /** The output form of normalizeMAC: the delimited pattern, lower-case hex and colons only. */
  predicate IsNormalMAC(s: string)
  {
    DelimitedPairs(s, 5) && LowerHexOrColon(s)
  }

  /** Pairing up 2n+2 lower-case hex digits gives n+1 colon-separated groups, and
      stripping the colons gives the digits back. */
  lemma {:induction false} PairUpGroups(t: string, n: nat)
    requires |t| == 2 * n + 2 && AllLowerHex(t)
    ensures DelimitedPairs(PairUp(t), n)
    ensures LowerHexOrColon(PairUp(t))
    ensures StripDelimiters(PairUp(t)) == t
    decreases n
  {
    if n == 0 {
      StripWithoutDelimiters(t);
    } else {
      var rest := PairUp(t[2..]);
      PairUpGroups(t[2..], n - 1);
      var head := t[..2] + ":";
      assert PairUp(t) == head + rest;
      assert (head + rest)[3..] == rest;
      assert LowerHexOrColon(head);
      LowerHexOrColonAppend(head, rest);
      StripAppend(head, rest);
      StripAppend(t[..2], ":");
      StripWithoutDelimiters(t[..2]);
      assert t == t[..2] + t[2..];
    }
  }

  predicate LowerHexOrColon(s: string)
  {
    forall i :: 0 <= i < |s| ==> IsLowerHexDigit(s[i]) || s[i] == ':'
  }

  lemma LowerHexOrColonAppend(a: string, b: string)
    requires LowerHexOrColon(a) && LowerHexOrColon(b)
    ensures LowerHexOrColon(a + b)
  {
  }

  /** On a colon-delimited MAC, pairing up the stripped digits restores it. */
  lemma {:induction false} PairUpStripped(s: string, n: nat)
    requires DelimitedPairs(s, n)
    requires forall i :: 0 <= i < |s| ==> s[i] != '-'
    ensures PairUp(StripDelimiters(s)) == s
    decreases n
  {
    if n == 0 {
      StripWithoutDelimiters(s);
    } else {
      assert s == s[..2] + [s[2]] + s[3..];
      StripAppend(s[..2] + [s[2]], s[3..]);
      StripAppend(s[..2], [s[2]]);
      StripWithoutDelimiters(s[..2]);
      StripDelimitedPairs(s[3..], n - 1);
      PairUpStripped(s[3..], n - 1);
      var t := s[..2] + StripDelimiters(s[3..]);
      assert StripDelimiters(s) == t;
      assert t[..2] == s[..2] && t[2..] == StripDelimiters(s[3..]);
    }
  }

  /** The canonical digits of a valid MAC: delimiters removed, lower-cased. */
  function HexDigitsOf(s: string): string
  {
    ToLower(StripDelimiters(s))
  }

  lemma ValidDigits(s: string)
    requires ValidateMAC(Some(s))
    ensures |HexDigitsOf(s)| == 12 && AllLowerHex(HexDigitsOf(s))
  {
    if MatchesDelimited(s) {
      StripDelimitedPairs(s, 5);
    } else {
      StripWithoutDelimiters(s);
    }
  }

  /** normalizeMAC: `None` exactly for invalid input, otherwise the lower-case
      colon-delimited form. */
  function NormalizeMAC(mac: Option<string>): (r: Option<string>)
    ensures r.Some? <==> ValidateMAC(mac)
    ensures r.Some? ==> IsNormalMAC(r.value) && StripDelimiters(r.value) == HexDigitsOf(mac.value)
  {
    if !ValidateMAC(mac) then None
    else
      var t := HexDigitsOf(mac.value);
      ValidDigits(mac.value);
      PairUpGroups(t, 5);
      Some(PairUp(t))
  }

  /** The normal form, position by position: 17 characters, a colon at 2, 5, 8,
      11 and 14, lower-case hex everywhere else. */
  lemma NormalMACShape(s: string)
    requires IsNormalMAC(s)
    ensures |s| == 17
    ensures forall i :: 0 <= i < 17 ==> if i % 3 == 2 then s[i] == ':' else IsLowerHexDigit(s[i])
  {
    DelimitedPairsShape(s, 5);
    forall i | 0 <= i < 17 ensures if i % 3 == 2 then s[i] == ':' else IsLowerHexDigit(s[i]) {
      assert DelimitedSlot(s[i], i);
    }
  }

  /** A normal-form MAC is valid and normalises to itself. */
  lemma {:induction false} NormalizeFixesNormalForm(s: string)
    requires IsNormalMAC(s)
    ensures ValidateMAC(Some(s))
    ensures NormalizeMAC(Some(s)) == Some(s)
  {
    DelimitedPairsShape(s, 5);
    StripDelimitedPairs(s, 5);
    var t := StripDelimiters(s);
    StripMembers(s);
    assert forall i :: 0 <= i < |t| ==> t[i] in s;
    assert forall i :: 0 <= i < |t| ==> IsLowerHexDigit(t[i]) by {
      forall i | 0 <= i < |t| ensures IsLowerHexDigit(t[i]) {
        assert IsHexDigit(t[i]);
        var j :| 0 <= j < |s| && s[j] == t[i];
      }
    }
    assert ToLower(t) == t;
    NormalHasNoDash(s);
    PairUpStripped(s, 5);
  }

  lemma NormalHasNoDash(s: string)
    requires IsNormalMAC(s)
    ensures forall i :: 0 <= i < |s| ==> s[i] != '-'
  {
  }

  lemma {:induction false} StripMembers(s: string)
    ensures forall c :: c in StripDelimiters(s) ==> c in s
  {
    if s != [] {
      StripMembers(s[1..]);
    }
  }

  /** normalizeMAC is idempotent and its output passes validateMAC. */
  lemma NormalizeIdempotent(mac: Option<string>)
    requires NormalizeMAC(mac).Some?
    ensures ValidateMAC(NormalizeMAC(mac))
    ensures NormalizeMAC(NormalizeMAC(mac)) == NormalizeMAC(mac)
  {
    NormalizeFixesNormalForm(NormalizeMAC(mac).value);
  }

  /** compareMAC: both valid and equal after normalisation. */
  function CompareMAC(mac1: Option<string>, mac2: Option<string>): (same: bool)
    ensures same ==> ValidateMAC(mac1) && ValidateMAC(mac2)
  {
    var n1 := NormalizeMAC(mac1);
    var n2 := NormalizeMAC(mac2);
    if n1.None? || n2.None? then false else n1.value == n2.value
  }

  lemma CompareSymmetric(mac1: Option<string>, mac2: Option<string>)
    ensures CompareMAC(mac1, mac2) == CompareMAC(mac2, mac1)
  {
  }

  /** Two valid MACs compare equal exactly when they have the same hex digits,
      whatever their case and delimiters. */
  lemma CompareIgnoresCaseAndDelimiters(a: string, b: string)
    requires ValidateMAC(Some(a)) && ValidateMAC(Some(b))
    ensures CompareMAC(Some(a), Some(b)) <==> HexDigitsOf(a) == HexDigitsOf(b)
  {
    var na, nb := NormalizeMAC(Some(a)).value, NormalizeMAC(Some(b)).value;
    assert StripDelimiters(na) == HexDigitsOf(a);
    assert StripDelimiters(nb) == HexDigitsOf(b);
  }

  /** getOUI: the first three octets of the normal form, upper-cased. */
  function GetOUI(mac: Option<string>): (oui: Option<string>)
    ensures oui.Some? <==> ValidateMAC(mac)
    ensures oui.Some? ==> |oui.value| == 8 && oui.value[2] == ':' && oui.value[5] == ':'
    ensures oui.Some? ==> forall i :: 0 <= i < 8 && i % 3 != 2 ==> IsUpperHexDigit(oui.value[i])
    ensures oui.Some? ==> ToLower(oui.value) == NormalizeMAC(mac).value[..8]
  {
    match NormalizeMAC(mac)
    case None => None
    case Some(n) =>
      NormalMACShape(n);
      Some(ToUpper(n[..8]))
  }

  const HexAlphabet: string := "0123456789abcdef"

  function HexOf(draws: seq<nat>): (r: string)
    requires forall k :: 0 <= k < |draws| ==> draws[k] < 16
    ensures |r| == |draws| && AllLowerHex(r)
  {
    seq(|draws|, k requires 0 <= k < |draws| => HexAlphabet[draws[k]])
  }

  lemma {:induction false} DelimitedPairsExtend(s: string, n: nat, a: char, b: char)
    requires DelimitedPairs(s, n) && IsHexDigit(a) && IsHexDigit(b)
    ensures DelimitedPairs(s + [':', a, b], n + 1)
    decreases n
  {
    if n > 0 {
      DelimitedPairsExtend(s[3..], n - 1, a, b);
      assert (s + [':', a, b])[3..] == s[3..] + [':', a, b];
    }
  }

  lemma HexOfStep(draws: seq<nat>, i: nat)
    requires 2 * i + 2 <= |draws| && forall k :: 0 <= k < |draws| ==> draws[k] < 16
    ensures IsLowerHexDigit(HexAlphabet[draws[2 * i]]) && IsLowerHexDigit(HexAlphabet[draws[2 * i + 1]])
    ensures HexOf(draws[..2 * i + 2]) == HexOf(draws[..2 * i]) + [HexAlphabet[draws[2 * i]], HexAlphabet[draws[2 * i + 1]]]
  {
    var all := HexOf(draws);
    assert all[2 * i] == HexAlphabet[draws[2 * i]];
    assert all[2 * i + 1] == HexAlphabet[draws[2 * i + 1]];
  }

  /** One more iteration of the generator's loop: a colon (after the first group) and two digits. */
  lemma AppendGroup(mac: string, i: nat, a: char, b: char)
    requires 0 < i
    requires DelimitedPairs(mac, i - 1) && LowerHexOrColon(mac)
    requires IsLowerHexDigit(a) && IsLowerHexDigit(b)
    ensures DelimitedPairs(mac + [':', a, b], i) && LowerHexOrColon(mac + [':', a, b])
    ensures StripDelimiters(mac + [':', a, b]) == StripDelimiters(mac) + [a, b]
  {
    DelimitedPairsExtend(mac, i - 1, a, b);
    LowerHexOrColonAppend(mac, [':', a, b]);
    StripAppend(mac, [':', a, b]);
    StripAppend([':'], [a, b]);
    StripWithoutDelimiters([a, b]);
  }

  /** generateRandomMAC: the twelve drawn digits (each `Math.floor(Math.random() * 16)`)
      are rendered as a normal-form MAC, which validates and carries exactly those digits. */
  method GenerateRandomMAC(draws: seq<nat>) returns (mac: string)
    requires |draws| == 12 && forall k :: 0 <= k < 12 ==> draws[k] < 16
    ensures IsNormalMAC(mac) && ValidateMAC(Some(mac))
    ensures StripDelimiters(mac) == HexOf(draws)
  {
    mac := "";
    for i := 0 to 6
      invariant i == 0 ==> mac == ""
      invariant i > 0 ==> DelimitedPairs(mac, i - 1)
      invariant LowerHexOrColon(mac)
      invariant StripDelimiters(mac) == HexOf(draws[..2 * i])
    {
      HexOfStep(draws, i);
      var a, b := HexAlphabet[draws[2 * i]], HexAlphabet[draws[2 * i + 1]];
      if i > 0 {
        AppendGroup(mac, i, a, b);
        ghost var before := mac;
        mac := mac + ":";
        mac := mac + [a];
        mac := mac + [b];
        assert mac == before + [':', a, b];
      } else {
        StripWithoutDelimiters([a, b]);
        mac := mac + [a];
        mac := mac + [b];
        assert mac == [a, b];
      }
    }
    assert draws[..12] == draws;
    NormalizeFixesNormalForm(mac);
  }
}
