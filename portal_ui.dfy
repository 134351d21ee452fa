/** The pure helpers of the captive-portal page script (services/portal/public/js/main.js). */
module PortalUi {
  import opened Wrappers
  import opened Text
  import MacValidator

  /** `s.padStart(2, '0')`. */
  function PadStart2(s: string): (r: string)
    ensures |r| == if |s| >= 2 then |s| else 2
  {
    if |s| >= 2 then s else seq(2 - |s|, _ => '0') + s
  }

  /** formatTime: whole minutes, a colon, and the remaining seconds padded to two digits. */
  function FormatTime(seconds: nat): (r: string)
    ensures |r| >= 4 && r[|r| - 3] == ':'
    ensures AllDigits(r[..|r| - 3]) && AllDigits(r[|r| - 2..])
    ensures DecimalValue(r[..|r| - 3]) == seconds / 60
    ensures DecimalValue(r[|r| - 2..]) == seconds % 60
    ensures r[0] == '0' <==> seconds < 60
    ensures r[0] == '0' ==> |r| == 4
  {
    var minutes := NatToString(seconds / 60);
    var secs := PadStart2(NatToString(seconds % 60));
    DecimalRoundTrip(seconds / 60);
    DecimalRoundTrip(seconds % 60);
    PaddedValue(seconds % 60);
    var r := minutes + ":" + secs;
    assert r[..|r| - 3] == minutes;
    assert r[|r| - 2..] == secs;
    r
  }

  lemma PaddedValue(n: nat)
    requires n < 100
    ensures |PadStart2(NatToString(n))| == 2
    ensures AllDigits(PadStart2(NatToString(n)))
    ensures DecimalValue(PadStart2(NatToString(n))) == DecimalValue(NatToString(n))
  {
    var s := NatToString(n);
    if n < 10 {
      var p := PadStart2(s);
      assert p == ['0'] + s;
      assert p[..1] == ['0'];
      assert DecimalValue(['0']) == 0 by {
        assert ['0'][..0] == [];
      }
      assert s[..0] == [];
    }
  }

  /** Reads an `M:SS` display back into seconds. */
  function ParseTime(t: string): Option<nat>
  {
    if |t| >= 4 && t[|t| - 3] == ':' && AllDigits(t[..|t| - 3]) && AllDigits(t[|t| - 2..])
    then Some(DecimalValue(t[..|t| - 3]) * 60 + DecimalValue(t[|t| - 2..]))
    else None
  }

  /** The display round-trips: minutes times sixty plus the two-digit seconds is the input. */
  lemma FormatTimeRoundTrip(seconds: nat)
    ensures ParseTime(FormatTime(seconds)) == Some(seconds)
  {
  }

  lemma FormatTimeExamples()
    ensures FormatTime(900) == "15:00"
    ensures FormatTime(0) == "0:00"
    ensures FormatTime(65) == "1:05"
  {
    assert NatToString(15) == "15";
  }

  /** isValidMAC: only the delimited form (six hex pairs separated by `:` or `-`). */
  function IsValidMAC(mac: string): (ok: bool)
    ensures ok <==> |mac| == 17 && forall i :: 0 <= i < 17 ==> MacValidator.DelimitedSlot(mac[i], i)
  {
    MacValidator.DelimitedPairsShape(mac, 5);
    MacValidator.MatchesDelimited(mac)
  }

  /** The page check is stricter than the server's: whatever it accepts, validateMAC accepts. */
  lemma IsValidMACImpliesValidateMAC(mac: string)
    ensures IsValidMAC(mac) ==> MacValidator.ValidateMAC(Some(mac))
  {
  }

  /** ... and the undelimited twelve-digit form is where they differ. */
  lemma UndelimitedOnlyServerSide()
    ensures MacValidator.ValidateMAC(Some("aabbccddeeff")) && !IsValidMAC("aabbccddeeff")
  {
    var s := "aabbccddeeff";
    assert MacValidator.MatchesUndelimited(s);
    assert !MacValidator.DelimitedSlot(s[2], 2);
  }
}
