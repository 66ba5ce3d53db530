/** The Discord self-service wizard: reading a character id out of a
    Lodestone profile URL, the actions offered on the home menu, and the
    menu's dispatch by wizard id. */
module LaciWizard {
  import opened Wrappers
  import opened Strings

  // ---------------------------------------------------------------------
  // Lodestone character URLs
  // ---------------------------------------------------------------------

  const Scheme := "https://"
  const Host := ".finalfantasyxiv.com/lodestone/character/"

  /** Length of `https://xx.finalfantasyxiv.com/lodestone/character/`. */
  const PrefixLength: nat := |Scheme| + 2 + |Host|

  /** The regional sub-domains the pattern accepts. */
  predicate IsRegion(r: string) {
    r == "na" || r == "eu" || r == "de" || r == "fr" || r == "jp"
  }

  /** The fixed part of a profile URL on a sub-domain. */
  function Prefix(region: string): string {
    Scheme + region + Host
  }

  /** The URL of a character profile. */
  function CharacterUrl(region: string, id: string): string {
    Prefix(region) + id
  }

  /** The pattern `https://(na|eu|de|fr|jp).finalfantasyxiv.com/lodestone/character/\d+`
      matches starting at index `i` (it needs at least one digit). */
  predicate MatchAt(s: string, i: nat) {
    && i + PrefixLength < |s|
    && var region := s[i + |Scheme|..i + |Scheme| + 2];
    && IsRegion(region)
    && s[i..i + PrefixLength] == Prefix(region)
    && IsDigit(s[i + PrefixLength])
  }

  /** The end of the run of digits starting at `j` (what `\d+` takes). */
  function DigitRunEnd(s: string, j: nat): (e: nat)
    requires j <= |s|
    ensures j <= e <= |s|
    ensures forall k :: j <= k < e ==> IsDigit(s[k])
    ensures e == |s| || !IsDigit(s[e])
    decreases |s| - j
  {
    if j < |s| && IsDigit(s[j]) then DigitRunEnd(s, j + 1) else j
  }

  /** The leftmost index at or after `i` where the pattern matches. */
  function FindMatch(s: string, i: nat): (r: Option<nat>)
    ensures r.Some? ==> i <= r.value && MatchAt(s, r.value)
    ensures r.Some? ==> forall j: nat :: i <= j < r.value ==> !MatchAt(s, j)
    ensures r.None? ==> forall j: nat :: i <= j ==> !MatchAt(s, j)
    decreases |s| - i
  {
    if i >= |s| then None
    else if MatchAt(s, i) then Some(i)
    else FindMatch(s, i + 1)
  }

  /** The character id in a Lodestone URL: the first match anywhere in the
      text, cut at `/`, its last piece parsed as an `int`; none when nothing
      matches or the number does not fit. */
  function ParseCharacterIdFromLodestoneUrl(lodestoneUrl: string): (r: Option<Int32>)
    ensures r.Some? ==> r.value >= 0
    ensures (forall j: nat :: !MatchAt(lodestoneUrl, j)) ==> r.None?
  {
    match FindMatch(lodestoneUrl, 0)
    case None => None
    case Some(k) =>
      var matched := lodestoneUrl[k..DigitRunEnd(lodestoneUrl, k + PrefixLength)];
      // `Last()` would throw on an empty split; the model answers `None`
      // there instead. The branch is never taken: after a match the
      // segment always exists (ParseFirstMatch).
      match LastNonEmptySegment(matched, '/')
      case None => None
      case Some(stringId) => TryParseInt(stringId)
  }

  /** The digits the first match ends with. */
  function MatchedDigits(s: string, k: nat): (ds: string)
    requires MatchAt(s, k)
    ensures |ds| > 0 && AllDigits(ds)
  {
    s[k + PrefixLength..DigitRunEnd(s, k + PrefixLength)]
  }

  /** The id is the value of the whole digit run of the first match, and
      is refused when it exceeds the range of `int`. */
  lemma ParseFirstMatch(s: string, k: nat)
    requires MatchAt(s, k)
    requires forall j: nat :: j < k ==> !MatchAt(s, j)
    ensures var v := Value(MatchedDigits(s, k));
      ParseCharacterIdFromLodestoneUrl(s) == if v <= IntMax then Some(v) else None
  {
    assert FindMatch(s, 0) == Some(k);
    MatchedSegment(s, k);
  }

  /** Cut at `/`, the text of a match ends with its digits. */
  lemma MatchedSegment(s: string, k: nat)
    requires MatchAt(s, k)
    ensures LastNonEmptySegment(s[k..DigitRunEnd(s, k + PrefixLength)], '/') == Some(MatchedDigits(s, k))
  {
    var e := DigitRunEnd(s, k + PrefixLength);
    var a, ds := s[k..k + PrefixLength], MatchedDigits(s, k);
    assert s[k..e] == a + ds;
    PrefixEndsWithSlash(s[k + |Scheme|..k + |Scheme| + 2]);
    DigitsHaveNoSlash(ds);
    LastSegmentOfTail(a, ds, '/');
  }

  /** A digit run holds no `/`. */
  lemma DigitsHaveNoSlash(ds: string)
    requires AllDigits(ds)
    ensures '/' !in ds
  {
    forall c | c in ds ensures c != '/' {
      var i :| 0 <= i < |ds| && ds[i] == c;
      assert IsDigit(ds[i]);
    }
  }

  lemma PrefixEndsWithSlash(region: string)
    ensures |Prefix(region)| > 0 && Prefix(region)[|Prefix(region)| - 1] == '/'
  {
    assert Host[|Host| - 1] == '/';
  }

  /** The sub-domain sits right after the scheme. */
  lemma PrefixRegion(region: string)
    requires |region| == 2
    ensures |Prefix(region)| == PrefixLength
    ensures Prefix(region)[|Scheme|..|Scheme| + 2] == region
  {
  }

  /** The middle of a concatenation. */
  lemma SliceMiddle(x: string, y: string, z: string)
    ensures (x + y + z)[|x|..|x| + |y|] == y
  {
  }

  /** An embedded profile URL matches where it starts. */
  lemma EmbeddedUrlMatchAt(pre: string, region: string, id: string, post: string)
    requires IsRegion(region) && |id| > 0 && AllDigits(id)
    ensures MatchAt(pre + CharacterUrl(region, id) + post, |pre|)
  {
    var P := Prefix(region);
    var s := pre + CharacterUrl(region, id) + post;
    var k := |pre|;
    PrefixRegion(region);
    assert s == pre + P + (id + post);
    SliceMiddle(pre, P, id + post);
    assert s[k..k + PrefixLength] == P;
    assert s[k + |Scheme|..k + |Scheme| + 2] == P[|Scheme|..|Scheme| + 2];
    assert s[k + PrefixLength] == id[0];
  }

  /** The digits of an embedded profile URL are what its match ends with. */
  lemma EmbeddedUrlMatches(pre: string, region: string, id: string, post: string)
    requires IsRegion(region) && |id| > 0 && AllDigits(id)
    requires |post| == 0 || !IsDigit(post[0])
    ensures MatchAt(pre + CharacterUrl(region, id) + post, |pre|)
    ensures MatchedDigits(pre + CharacterUrl(region, id) + post, |pre|) == id
  {
    EmbeddedUrlMatchAt(pre, region, id, post);
    PrefixRegion(region);
    var x := pre + Prefix(region);
    var s := pre + CharacterUrl(region, id) + post;
    assert s == x + id + post;
    var b := |x|;
    assert b == |pre| + PrefixLength;
    var e := b + |id|;
    assert forall i :: b <= i < e ==> s[i] == id[i - b];
    assert e == |s| || s[e] == post[0];
    assert DigitRunEnd(s, b) == e;
    SliceMiddle(x, id, post);
  }

  /** A profile URL whose digits are followed by a non-digit (or nothing)
      gives its id whatever text surrounds it, as long as no earlier match
      starts in the text before it. */
  lemma ParseIgnoresSurroundingText(pre: string, region: string, id: string, post: string)
    requires IsRegion(region) && |id| > 0 && AllDigits(id)
    requires |post| == 0 || !IsDigit(post[0])
    requires forall j: nat :: j < |pre| ==> !MatchAt(pre + CharacterUrl(region, id) + post, j)
    ensures ParseCharacterIdFromLodestoneUrl(pre + CharacterUrl(region, id) + post) == TryParseInt(id)
  {
    EmbeddedUrlMatches(pre, region, id, post);
    ParseFirstMatch(pre + CharacterUrl(region, id) + post, |pre|);
  }

  /** In a bare profile URL the pattern can only match at the start: a
      later start would need a `/` where the digits are. */
  lemma BareUrlNoLaterMatch(region: string, id: string, j: nat)
    requires |region| == 2 && AllDigits(id) && j > 0
    ensures !MatchAt(CharacterUrl(region, id), j)
  {
    var s := CharacterUrl(region, id);
    if j + PrefixLength < |s| {
      var p := j + PrefixLength - 1;
      PrefixRegion(region);
      assert s[p] == id[p - PrefixLength];
      assert IsDigit(s[p]);
      var r := s[j + |Scheme|..j + |Scheme| + 2];
      PrefixEndsWithSlash(r);
      PrefixRegion(r);
      assert s[j..j + PrefixLength][PrefixLength - 1] == s[p];
    }
  }

  /** A profile URL on any other sub-domain is not recognised. */
  lemma UnknownRegionRejected(region: string, id: string)
    requires |region| == 2 && !IsRegion(region) && AllDigits(id)
    ensures ParseCharacterIdFromLodestoneUrl(CharacterUrl(region, id)) == None
  {
    var s := CharacterUrl(region, id);
    forall j: nat ensures !MatchAt(s, j) {
      if j == 0 {
        UrlRegion(region, id);
      } else {
        BareUrlNoLaterMatch(region, id, j);
      }
    }
  }

  /** The sub-domain of a profile URL sits right after the scheme. */
  lemma UrlRegion(region: string, id: string)
    requires |region| == 2
    ensures |CharacterUrl(region, id)| > |Scheme| + 2
    ensures CharacterUrl(region, id)[|Scheme|..|Scheme| + 2] == region
  {
    assert CharacterUrl(region, id) == Scheme + region + (Host + id);
    SliceMiddle(Scheme, region, Host + id);
  }

  /** Leading zeros are accepted and do not change the id. */
  lemma LeadingZerosAllowed(region: string, id: string)
    requires IsRegion(region) && |id| > 0 && AllDigits(id)
    ensures ParseCharacterIdFromLodestoneUrl(CharacterUrl(region, "0" + id))
         == ParseCharacterIdFromLodestoneUrl(CharacterUrl(region, id))
  {
    ValueLeadingZero(id);
    assert "" + CharacterUrl(region, id) + "" == CharacterUrl(region, id);
    assert "" + CharacterUrl(region, "0" + id) + "" == CharacterUrl(region, "0" + id);
    ParseIgnoresSurroundingText("", region, id, "");
    ParseIgnoresSurroundingText("", region, "0" + id, "");
  }

  // ---------------------------------------------------------------------
  // Home menu
  // ---------------------------------------------------------------------

  /** The wizard pages the home menu leads to. */
  datatype WizardAction = Register | UserInfo | Recover | Secondary | Vanity | BlockMod | Delete

  /** The custom id under which a page is offered. */
  function WizardId(a: WizardAction): string {
    match a
    case Register => "wizard-register-verify-check:OK"
    case UserInfo => "wizard-userinfo"
    case Recover => "wizard-recover"
    case Secondary => "wizard-secondary"
    case Vanity => "wizard-vanity"
    case BlockMod => "wizard-blockmod"
    case Delete => "wizard-delete"
  }

  /** The page the menu picker opens for an id; any other id does nothing. */
  function MenuPicker(wizardId: string): (r: Option<WizardAction>)
    ensures r.Some? ==> WizardId(r.value) == wizardId
  {
    match wizardId
    case "wizard-register-verify-check:OK" => Some(Register)
    case "wizard-userinfo" => Some(UserInfo)
    case "wizard-recover" => Some(Recover)
    case "wizard-secondary" => Some(Secondary)
    case "wizard-vanity" => Some(Vanity)
    case "wizard-blockmod" => Some(BlockMod)
    case "wizard-delete" => Some(Delete)
    case _ => None
  }

  /** The picker opens exactly the page behind each offered id, so the
      seven ids are the only ones it acts on. */
  lemma MenuPickerInverse(a: WizardAction, wizardId: string)
    ensures MenuPicker(WizardId(a)) == Some(a)
    ensures MenuPicker(wizardId).Some? <==> exists b: WizardAction :: WizardId(b) == wizardId
  {
    if MenuPicker(wizardId).None? {
      forall b: WizardAction ensures WizardId(b) != wizardId {
        assert MenuPicker(WizardId(b)) == Some(b);
      }
    }
  }

  /** The ids offered on the home menu, in order. */
  function HomeActions(hasAccount: bool, isAdmin: bool): (r: seq<string>)
    ensures |r| >= 1
    ensures forall i :: 0 <= i < |r| ==> MenuPicker(r[i]).Some?
    ensures WizardId(Register) in r <==> !hasAccount
    ensures WizardId(BlockMod) in r <==> hasAccount && isAdmin
    ensures hasAccount ==> r[|r| - 1] == WizardId(Delete)
  {
    if !hasAccount then [WizardId(Register)]
    else
      [WizardId(UserInfo), WizardId(Recover), WizardId(Secondary), WizardId(Vanity)]
      + (if isAdmin then [WizardId(BlockMod)] else [])
      + [WizardId(Delete)]
  }

  /** The three menus the home page can show. */
  lemma HomeMenus()
    ensures HomeActions(false, false) == HomeActions(false, true) == ["wizard-register-verify-check:OK"]
    ensures HomeActions(true, false)
         == ["wizard-userinfo", "wizard-recover", "wizard-secondary", "wizard-vanity", "wizard-delete"]
    ensures HomeActions(true, true)
         == ["wizard-userinfo", "wizard-recover", "wizard-secondary", "wizard-vanity", "wizard-blockmod", "wizard-delete"]
  {
  }
}
