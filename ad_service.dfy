/** The ad service (services/ad-service/app.py): the upload extension check, the
    eligibility window of an ad, the exclusion of ads this device saw in the last
    day, and the weighted random choice among the rest. Dates are day numbers;
    impression times are milliseconds. */
module AdService {
  import opened Wrappers
  import opened Text
  import opened Schema

  // ---------------------------------------------------------------- uploads

  const AllowedVideoExtensions: set<string> := {"mp4", "webm", "ogg"}
  const AllowedImageExtensions: set<string> := {"jpg", "jpeg", "png", "gif", "webp"}

  /** No '.' after position i. */
  predicate NoDotAfter(filename: string, i: int)
  {
    forall j :: 0 <= j < |filename| && j > i ==> filename[j] != '.'
  }

  /** The index of the last '.' in the name, if there is one. */
  function LastDot(filename: string): (dot: Option<nat>)
    ensures dot.None? <==> '.' !in filename
    ensures dot.Some? ==> dot.value < |filename| && filename[dot.value] == '.' && NoDotAfter(filename, dot.value)
  {
    if filename == [] then None
    else if filename[|filename| - 1] == '.' then Some(|filename| - 1)
    else
      var prefix := filename[..|filename| - 1];
      assert filename == prefix + [filename[|filename| - 1]];
      LastDot(prefix)
  }

  /** allowed_file: the name has a '.', and the text after the last one, lower-cased,
      is an allowed extension. */
  function AllowedFile(filename: string, allowed: set<string>): (ok: bool)
    ensures '.' !in filename ==> !ok
    ensures ok <==> exists i :: 0 <= i < |filename| && filename[i] == '.' && NoDotAfter(filename, i)
                               && ToLower(filename[i + 1..]) in allowed
  {
    var dot := LastDot(filename);
    if dot.None? then false
    else ToLower(filename[dot.value + 1..]) in allowed
  }

  /** Upper-case extensions pass. */
  lemma AllowedFileUpperCase()
    ensures AllowedFile("CLIP.MP4", AllowedVideoExtensions)
  {
    assert "CLIP.MP4"[4] == '.' && NoDotAfter("CLIP.MP4", 4);
    assert ToLower("CLIP.MP4"[5..]) == "mp4";
  }

  /** Only the last extension counts. */
  lemma AllowedFileLastExtension()
    ensures !AllowedFile("x.mp4.exe", AllowedVideoExtensions)
  {
    assert "x.mp4.exe"[..8] == "x.mp4.ex" && "x.mp4.ex"[..7] == "x.mp4.e" && "x.mp4.e"[..6] == "x.mp4.";
    assert LastDot("x.mp4.") == Some(5);
    assert LastDot("x.mp4.e") == Some(5);
    assert LastDot("x.mp4.ex") == Some(5);
    assert LastDot("x.mp4.exe") == Some(5);
    assert ToLower("x.mp4.exe"[6..]) == "exe";
  }

  /** A trailing dot leaves an empty extension, and a name without a dot has none. */
  lemma AllowedFileNoExtension()
    ensures !AllowedFile("video.", AllowedVideoExtensions)
    ensures !AllowedFile("mp4", AllowedVideoExtensions)
  {
    assert LastDot("video.") == Some(5);
    assert ToLower("video."[6..]) == "";
    assert "mp4"[0] != '.' && "mp4"[1] != '.' && "mp4"[2] != '.';
  }

  // ---------------------------------------------------------------- selection

  datatype AdStatus = ActiveAd | InactiveAd | ScheduledAd

  /** One `ads` row, as far as selection looks at it. */
  datatype Ad = Ad(id: int, status: AdStatus, startDate: Option<int>, endDate: Option<int>, weight: int)

  /** Active, and today inside its optional start and end dates (both inclusive). */
  predicate Eligible(ad: Ad, today: int)
  {
    ad.status == ActiveAd
    && (ad.startDate.None? || ad.startDate.value <= today)
    && (ad.endDate.None? || ad.endDate.value >= today)
  }

  /** The ids of the ads shown to the MAC in the 24 hours before now. */
  function RecentAdIds(impressions: seq<ImpressionRow>, mac: string, now: int): (recent: set<int>)
    ensures forall i :: (0 <= i < |impressions| && impressions[i].macAddress == mac
                         && now - DayMs < impressions[i].impressionTime) ==> impressions[i].adId in recent
    ensures forall id :: id in recent ==>
              exists i :: 0 <= i < |impressions| && impressions[i].macAddress == mac
                          && now - DayMs < impressions[i].impressionTime && impressions[i].adId == id
  {
    assert forall i :: 0 <= i < |impressions| ==> impressions[i] in impressions;
    set r | r in impressions && r.macAddress == mac && r.impressionTime > now - DayMs :: r.adId
  }

  /** An ad shown to the MAC within the last day is excluded, whatever other
      impressions the table holds; one shown earlier than that no longer counts. */
  lemma ShownAdIsRecent(impressions: seq<ImpressionRow>, shown: ImpressionRow, mac: string, now: int)
    requires shown.macAddress == mac
    ensures now - DayMs < shown.impressionTime ==> shown.adId in RecentAdIds(impressions + [shown], mac, now)
    ensures shown.impressionTime <= now - DayMs ==>
              RecentAdIds(impressions + [shown], mac, now) == RecentAdIds(impressions, mac, now)
  {
    var all := impressions + [shown];
    assert all[|impressions|] == shown;
    assert forall r :: r in all <==> r in impressions || r == shown;
  }

  /** The ads of the list that satisfy the eligibility query, in list order. */
  function EligibleAds(ads: seq<Ad>, today: int): (eligible: seq<Ad>)
    ensures forall a :: a in eligible <==> a in ads && Eligible(a, today)
  {
    if ads == [] then []
    else
      assert forall a :: a in ads <==> a == ads[0] || a in ads[1..];
      (if Eligible(ads[0], today) then [ads[0]] else []) + EligibleAds(ads[1..], today)
  }

  /** The ads of the list whose id is not among the excluded ones, in list order. */
  function Unseen(ads: seq<Ad>, excluded: set<int>): (unseen: seq<Ad>)
    ensures forall a :: a in unseen <==> a in ads && a.id !in excluded
  {
    if ads == [] then []
    else
      assert forall a :: a in ads <==> a == ads[0] || a in ads[1..];
      (if ads[0].id !in excluded then [ads[0]] else []) + Unseen(ads[1..], excluded)
  }

  /** The ads select_ad chooses among: the eligible ones not shown recently if there
      are any, all eligible ones otherwise. */
  function CandidatePool(ads: seq<Ad>, recent: set<int>, today: int): (pool: seq<Ad>)
    ensures pool == [] <==> forall a :: a in ads ==> !Eligible(a, today)
    ensures forall a :: a in pool ==> a in ads && Eligible(a, today)
    ensures (exists a :: a in ads && Eligible(a, today) && a.id !in recent) ==>
              forall a :: a in pool <==> a in ads && Eligible(a, today) && a.id !in recent
    ensures (forall a :: a in ads && Eligible(a, today) ==> a.id in recent) ==>
              forall a :: a in pool <==> a in ads && Eligible(a, today)
  {
    var eligible := EligibleAds(ads, today);
    assert eligible != [] ==> eligible[0] in eligible;
    if recent != {} then
      var unseen := Unseen(eligible, recent);
      if unseen != [] then
        assert unseen[0] in unseen;
        unseen
      else eligible
    else eligible
  }

  /** The sum of the first n weights. */
  function PrefixWeight(ads: seq<Ad>, n: nat): int
    requires n <= |ads|
  {
    if n == 0 then 0 else PrefixWeight(ads, n - 1) + ads[n - 1].weight
  }

  function TotalWeight(ads: seq<Ad>): int
  {
    PrefixWeight(ads, |ads|)
  }

  /** select_weighted_ad: with zero total weight, the uniformly chosen ad `pick`;
      otherwise the first ad whose running weight reaches the draw, and the last ad
      if none does. The returned index is always in range; with a draw in (0, total]
      the chosen ad carries positive weight. */
  method SelectWeightedAd(ads: seq<Ad>, pick: nat, draw: real) returns (k: nat)
    requires |ads| > 0 && pick < |ads|
    ensures k < |ads|
    ensures TotalWeight(ads) == 0 ==> k == pick
    ensures TotalWeight(ads) != 0 ==>
              forall j :: 1 <= j <= k ==> PrefixWeight(ads, j) as real < draw
    ensures TotalWeight(ads) != 0 ==>
              draw <= PrefixWeight(ads, k + 1) as real || k == |ads| - 1
    ensures TotalWeight(ads) > 0 && 0.0 < draw <= TotalWeight(ads) as real ==>
              draw <= PrefixWeight(ads, k + 1) as real && ads[k].weight > 0
  {
    var totalWeight := TotalWeight(ads);
    if totalWeight == 0 {
      return pick;
    }
    var cumulative := 0;
    var i := 0;
    while i < |ads|
      invariant 0 <= i <= |ads|
      invariant cumulative == PrefixWeight(ads, i)
      invariant forall j :: 1 <= j <= i ==> PrefixWeight(ads, j) as real < draw
    {
      cumulative := cumulative + ads[i].weight;
      if draw <= cumulative as real {
        assert i == 0 || PrefixWeight(ads, i) as real < draw;
        return i;
      }
      i := i + 1;
    }
    // no running sum reached the draw: the fallback
    return |ads| - 1;
  }

  /** select_ad: 404 when no ad is eligible; otherwise a weighted choice among the
      candidate pool. `pick` is the uniform random index (taken modulo the pool
      size) and `draw` the uniform draw over the total weight. */
  method SelectAd(ads: seq<Ad>, impressions: seq<ImpressionRow>, mac: string, now: int, today: int,
                  pick: nat, draw: real)
    returns (reply: Result<Ad, HttpError>)
    ensures reply.Err? <==> forall a :: a in ads ==> !Eligible(a, today)
    ensures reply.Err? ==> reply.error == HttpError(404, "No ads available")
    ensures reply.Ok? ==> reply.value in ads && Eligible(reply.value, today)
    ensures reply.Ok? && (exists a :: a in ads && Eligible(a, today) && a.id !in RecentAdIds(impressions, mac, now)) ==>
              reply.value.id !in RecentAdIds(impressions, mac, now)
  {
    var recent := RecentAdIds(impressions, mac, now);
    var pool := CandidatePool(ads, recent, today);
    if pool == [] {
      return Err(HttpError(404, "No ads available"));
    }
    var k := SelectWeightedAd(pool, pick % |pool|, draw);
    assert pool[k] in pool;
    reply := Ok(pool[k]);
  }
}
