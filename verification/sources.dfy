/** How `search_news` (news_crawler.py) names the outlet of an article. Method 1
    looks up the host of the article's original link in a table of 57 known
    domains, falling back to the host's first label in upper case; method 2,
    when that gives nothing, takes a short first sentence of the description.
    The host (`urlparse(original_link).netloc`) is a parameter: `None` stands
    for the parse raising, which the source swallows. */
module Sources {
  import opened Optional
  import opened Text

  /** The label used when no method finds one. */
  const Unknown: string := "알 수 없음"

  type Entry = (string, string)

  /** The domain table in pieces of ten entries. */
  const Entries0To9: seq<Entry> := [
    ("yna.co.kr", "연합뉴스"), ("yonhapnews.co.kr", "연합뉴스"), ("chosun.com", "조선일보"),
    ("joongang.co.kr", "중앙일보"), ("donga.com", "동아일보"), ("hani.co.kr", "한겨레"),
    ("khan.co.kr", "경향신문"), ("kmib.co.kr", "국민일보"), ("segye.com", "세계일보"),
    ("munhwa.com", "문화일보")]
  const Entries10To19: seq<Entry> := [
    ("seoul.co.kr", "서울신문"), ("hankookilbo.com", "한국일보"), ("mk.co.kr", "매일경제"),
    ("hankyung.com", "한국경제"), ("mt.co.kr", "머니투데이"), ("edaily.co.kr", "이데일리"),
    ("etnews.com", "전자신문"), ("dt.co.kr", "디지털타임스"), ("news1.kr", "뉴스1"),
    ("newsis.com", "뉴시스")]
  const Entries20To29: seq<Entry> := [
    ("newspim.com", "뉴스핌"), ("newsway.co.kr", "뉴스웨이"), ("nocutnews.co.kr", "노컷뉴스"),
    ("breaknews.com", "브레이크뉴스"), ("kbs.co.kr", "KBS"), ("imbc.com", "MBC"),
    ("sbs.co.kr", "SBS"), ("jtbc.co.kr", "JTBC"), ("news.jtbc.co.kr", "JTBC"),
    ("tvchosun.com", "TV조선")]
  const Entries30To39: seq<Entry> := [
    ("mbntv.co.kr", "MBN"), ("ytn.co.kr", "YTN"), ("osen.co.kr", "OSEN"),
    ("xportsnews.com", "엑스포츠뉴스"), ("topstarnews.net", "톱스타뉴스"), ("starnewskorea.com", "스타뉴스"),
    ("sedaily.com", "서울경제"), ("fnnews.com", "파이낸셜뉴스"), ("biz.chosun.com", "조선비즈"),
    ("wowtv.co.kr", "한국경제TV")]
  const Entries40To49: seq<Entry> := [
    ("hellot.net", "헬로티"), ("ekn.kr", "에너지경제"), ("newsworks.co.kr", "뉴스웍스"),
    ("bntnews.co.kr", "BNT뉴스"), ("slownews.kr", "슬로우뉴스"), ("imaeil.com", "매일신문"),
    ("biz.heraldcorp.com", "해럴드경제"), ("heraldcorp.com", "헤럴드경제"), ("womaneconomy.co.kr", "여성경제신문"),
    ("cm.asiae.co.kr", "아시아경제")]
  const Entries50To56: seq<Entry> := [
    ("busan.com", "부산일보"), ("kado.net", "강원도민일보"), ("pennmike.com", "펜엔마이크"),
    ("etoday.co.kr", "이투데이"), ("newsprime.co.kr", "프라임경제"), ("nongmin.com", "농민신문"),
    ("kookje.co.kr", "국제신문")]

  /** The domain table, in the source's insertion order (dict order). */
  const DomainMap: seq<Entry> :=
    Entries0To9 + Entries10To19 + Entries20To29
    + Entries30To39 + Entries40To49 + Entries50To56

  /** The loop of method 1: the index of the first entry whose key occurs in
      `host`, scanning from `i`. */
  function FirstMatchFrom(m: seq<Entry>, host: string, i: nat): (r: Option<nat>)
    requires i <= |m|
    ensures r.Some? ==> i <= r.value < |m| && IsSubstring(m[r.value].0, host)
    ensures r.Some? ==> forall j :: i <= j < r.value ==> !IsSubstring(m[j].0, host)
    ensures r.None? <==> forall j :: i <= j < |m| ==> !IsSubstring(m[j].0, host)
    decreases |m| - i
  {
    if i == |m| then None
    else if IsSubstring(m[i].0, host) then Some(i)
    else FirstMatchFrom(m, host, i + 1)
  }

  /** The lookup the table evidently intends: among the keys occurring in
      `host`, the longest, and the earliest of those when several are as long.
      A key that contains another key is then never hidden behind it. */
  function LongestMatch(m: seq<Entry>, host: string): (r: Option<nat>)
    ensures r.Some? ==> r.value < |m| && IsSubstring(m[r.value].0, host)
    ensures r.None? <==> forall j :: 0 <= j < |m| ==> !IsSubstring(m[j].0, host)
    ensures r.Some? ==> forall j :: 0 <= j < |m| && IsSubstring(m[j].0, host) ==> |m[j].0| <= |m[r.value].0|
    ensures r.Some? ==> forall j :: 0 <= j < r.value && IsSubstring(m[j].0, host) ==> |m[j].0| < |m[r.value].0|
    decreases |m|
  {
    if m == [] then None
    else
      var rest := LongestMatch(m[..|m| - 1], host);
      var last := |m| - 1;
      if IsSubstring(m[last].0, host) && (rest.None? || |m[rest.value].0| < |m[last].0|) then Some(last)
      else rest
  }

  /** The key of entry `j` occurs in `host`. */
  predicate Matches(m: seq<Entry>, host: string, j: int) {
    0 <= j < |m| && IsSubstring(m[j].0, host)
  }

  /** Entry `i` is the first entry whose key occurs in `host`. */
  predicate IsFirstMatch(m: seq<Entry>, host: string, i: int) {
    Matches(m, host, i) && forall j :: 0 <= j < i ==> !Matches(m, host, j)
  }

  /** Entry `i` has the longest key occurring in `host`, and is the earliest
      entry with a key that long. */
  predicate IsLongestMatch(m: seq<Entry>, host: string, i: int) {
    && Matches(m, host, i)
    && (forall j :: 0 <= j < |m| && Matches(m, host, j) ==> |m[j].0| <= |m[i].0|)
    && (forall j :: 0 <= j < i && Matches(m, host, j) ==> |m[j].0| < |m[i].0|)
  }

  /** At most one entry is the first match. */
  lemma FirstMatchUnique(m: seq<Entry>, host: string, i: int, k: int)
    requires IsFirstMatch(m, host, i) && IsFirstMatch(m, host, k)
    ensures i == k
  {
  }

  /** At most one entry is the longest match. */
  lemma LongestMatchUnique(m: seq<Entry>, host: string, i: int, k: int)
    requires IsLongestMatch(m, host, i) && IsLongestMatch(m, host, k)
    ensures i == k
  {
  }

  /** The fallback of method 1: `host.replace('www.', '').split('.')[0].upper()`,
      that is, the upper-cased text before the first dot once every `www.`
      is removed. */
  function HostLabel(host: string): (r: string)
    ensures var h := RemoveAll(host, "www.");
      && |r| <= |h|
      && (forall i :: 0 <= i < |r| ==> h[i] != '.' && r[i] == UpperChar(h[i]))
      && (|r| < |h| ==> h[|r|] == '.')
    ensures |r| <= |host|
    ensures '.' !in r
  {
    var first := BeforeFirst(RemoveAll(host, "www."), '.');
    assert forall i :: 0 <= i < |first| ==> first[i] != '.';
    AsciiUpper(first)
  }

  /** Method 1 as the source writes it: the first table entry whose key occurs
      in the host wins. */
  function TableLabelAsWritten(host: string): (r: string)
    ensures forall i :: IsFirstMatch(DomainMap, host, i) ==> r == DomainMap[i].1
    ensures (exists j :: Matches(DomainMap, host, j)) ==>
              exists i :: IsFirstMatch(DomainMap, host, i) && r == DomainMap[i].1
    ensures (forall j :: !Matches(DomainMap, host, j)) ==> r == HostLabel(host)
  {
    match FirstMatchFrom(DomainMap, host, 0)
    case Some(k) =>
      assert IsFirstMatch(DomainMap, host, k);
      forall i | IsFirstMatch(DomainMap, host, i) ensures i == k {
        FirstMatchUnique(DomainMap, host, i, k);
      }
      DomainMap[k].1
    case None => HostLabel(host)
  }

  /** Method 1 with the longest-key lookup. */
  function TableLabel(host: string): (r: string)
    ensures forall i :: IsLongestMatch(DomainMap, host, i) ==> r == DomainMap[i].1
    ensures (exists j :: Matches(DomainMap, host, j)) ==>
              exists i :: IsLongestMatch(DomainMap, host, i) && r == DomainMap[i].1
    ensures (forall j :: !Matches(DomainMap, host, j)) ==> r == HostLabel(host)
  {
    match LongestMatch(DomainMap, host)
    case Some(k) =>
      assert IsLongestMatch(DomainMap, host, k);
      forall i | IsLongestMatch(DomainMap, host, i) ensures i == k {
        LongestMatchUnique(DomainMap, host, i, k);
      }
      DomainMap[k].1
    case None => HostLabel(host)
  }

  /** Method 2: while the label is still unknown and there is a description,
      its text before the first `.`, stripped, when that is under 20
      characters; otherwise the label stays as it is. */
  function FromDescription(source: string, description: string): (r: string)
    ensures source == Unknown && description != [] && |BeforeFirst(description, '.')| < 20 ==>
              r == Strip(BeforeFirst(description, '.'))
    ensures !(source == Unknown && description != [] && |BeforeFirst(description, '.')| < 20) ==> r == source
    ensures r != source ==> IsSubstring(r, description) && '.' !in r && |r| < 20
  {
    if source == Unknown && description != [] then
      var first := BeforeFirst(description, '.');
      if |first| < 20 then
        var s := Strip(first);
        DescriptionPiece(description, first, s);
        s
      else source
    else source
  }

  lemma DescriptionPiece(description: string, first: string, s: string)
    requires first <= description && '.' !in first
    requires IsSubstring(s, first)
    ensures IsSubstring(s, description) && '.' !in s && |s| <= |first|
  {
    SubstringAt(s, first);
    var i :| OccursAt(s, first, i);
    assert description[i..i + |s|] == first[i..i + |s|];
    assert OccursAt(s, description, i);
    SubstringAt(s, description);
    assert forall k :: 0 <= k < |s| ==> s[k] == first[i + k];
  }

  /** The outlet label as the source computes it; `host` is the parsed host of
      `originalLink`, `None` when parsing it raised. */
  function SourceLabelAsWritten(originalLink: string, host: Option<string>, description: string): (r: string)
    ensures originalLink == [] || host.None? ==> r == FromDescription(Unknown, description)
    ensures originalLink != [] && host.Some? ==> r == FromDescription(TableLabelAsWritten(host.value), description)
  {
    var byHost := if originalLink != [] && host.Some? then TableLabelAsWritten(host.value) else Unknown;
    FromDescription(byHost, description)
  }

  /** The outlet label with the longest-key lookup, the corrected lookup. */
  function SourceLabel(originalLink: string, host: Option<string>, description: string): (r: string)
    ensures originalLink == [] || host.None? ==> r == FromDescription(Unknown, description)
    ensures originalLink != [] && host.Some? ==> r == FromDescription(TableLabel(host.value), description)
  {
    var byHost := if originalLink != [] && host.Some? then TableLabel(host.value) else Unknown;
    FromDescription(byHost, description)
  }

  /** Which table lookup labels a host: `FirstKey` is the program's loop,
      `LongestKey` the corrected one. */
  datatype Lookup = FirstKey | LongestKey

  /** The outlet label under the chosen lookup. */
  function SourceLabelBy(lookup: Lookup, originalLink: string, host: Option<string>, description: string): (r: string)
    ensures lookup == FirstKey ==> r == SourceLabelAsWritten(originalLink, host, description)
    ensures lookup == LongestKey ==> r == SourceLabel(originalLink, host, description)
    ensures originalLink == [] || host.None? ==> r == FromDescription(Unknown, description)
  {
    match lookup
    case FirstKey => SourceLabelAsWritten(originalLink, host, description)
    case LongestKey => SourceLabel(originalLink, host, description)
  }

  /** With the longest-key lookup every entry is reachable: a host equal to a
      key gets the label of the first entry with that key. */
  lemma {:induction false} EveryEntryReachable(m: seq<Entry>, i: nat)
    requires i < |m|
    ensures LongestMatch(m, m[i].0).Some?
    ensures m[LongestMatch(m, m[i].0).value].0 == m[i].0
    ensures forall j :: 0 <= j < LongestMatch(m, m[i].0).value ==> m[j].0 != m[i].0
  {
    var key := m[i].0;
    SubstringSelf(key);
    var k := LongestMatch(m, key).value;
    SubstringLength(m[k].0, key);
  }

  /** No two entries of the table share a key. */
  predicate KeysDistinct(m: seq<Entry>) {
    forall i, j :: 0 <= i < j < |m| ==> m[i].0 != m[j].0
  }

  /** No key of `a` is a key of `b`. */
  predicate KeysDisjoint(a: seq<Entry>, b: seq<Entry>) {
    forall i, j :: 0 <= i < |a| && 0 <= j < |b| ==> a[i].0 != b[j].0
  }

  lemma KeysDistinctAppend(a: seq<Entry>, b: seq<Entry>)
    requires KeysDistinct(a) && KeysDistinct(b) && KeysDisjoint(a, b)
    ensures KeysDistinct(a + b)
  {
  }

  lemma KeysDisjointAppend(a: seq<Entry>, b: seq<Entry>, c: seq<Entry>)
    requires KeysDisjoint(a, b) && KeysDisjoint(a, c)
    ensures KeysDisjoint(a, b + c)
  {
  }

  /** Six pieces with distinct keys, pairwise disjoint, make a table with
      distinct keys. */
  lemma SixPiecesDistinct(p0: seq<Entry>, p1: seq<Entry>, p2: seq<Entry>, p3: seq<Entry>, p4: seq<Entry>, p5: seq<Entry>)
    requires KeysDistinct(p0) && KeysDistinct(p1) && KeysDistinct(p2)
    requires KeysDistinct(p3) && KeysDistinct(p4) && KeysDistinct(p5)
    requires KeysDisjoint(p0, p1) && KeysDisjoint(p0, p2) && KeysDisjoint(p0, p3) && KeysDisjoint(p0, p4) && KeysDisjoint(p0, p5)
    requires KeysDisjoint(p1, p2) && KeysDisjoint(p1, p3) && KeysDisjoint(p1, p4) && KeysDisjoint(p1, p5)
    requires KeysDisjoint(p2, p3) && KeysDisjoint(p2, p4) && KeysDisjoint(p2, p5)
    requires KeysDisjoint(p3, p4) && KeysDisjoint(p3, p5)
    requires KeysDisjoint(p4, p5)
    ensures KeysDistinct(p0 + p1 + p2 + p3 + p4 + p5)
  {
    KeysDistinctAppend(p4, p5);
    KeysDisjointAppend(p3, p4, p5);
    KeysDistinctAppend(p3, p4 + p5);
    KeysDisjointAppend(p2, p4, p5);
    KeysDisjointAppend(p2, p3, p4 + p5);
    KeysDistinctAppend(p2, p3 + (p4 + p5));
    KeysDisjointAppend(p1, p4, p5);
    KeysDisjointAppend(p1, p3, p4 + p5);
    KeysDisjointAppend(p1, p2, p3 + (p4 + p5));
    KeysDistinctAppend(p1, p2 + (p3 + (p4 + p5)));
    KeysDisjointAppend(p0, p4, p5);
    KeysDisjointAppend(p0, p3, p4 + p5);
    KeysDisjointAppend(p0, p2, p3 + (p4 + p5));
    KeysDisjointAppend(p0, p1, p2 + (p3 + (p4 + p5)));
    KeysDistinctAppend(p0, p1 + (p2 + (p3 + (p4 + p5))));
    assert p0 + p1 + p2 + p3 + p4 + p5 == p0 + (p1 + (p2 + (p3 + (p4 + p5))));
  }

  lemma Entries0To9Distinct()
    ensures KeysDistinct(Entries0To9)
  {
  }

  lemma Entries10To19Distinct()
    ensures KeysDistinct(Entries10To19)
  {
  }

  lemma Entries20To29Distinct()
    ensures KeysDistinct(Entries20To29)
  {
  }

  lemma Entries30To39Distinct()
    ensures KeysDistinct(Entries30To39)
  {
  }

  lemma Entries40To49Distinct()
    ensures KeysDistinct(Entries40To49)
  {
  }

  lemma Entries50To56Distinct()
    ensures KeysDistinct(Entries50To56)
  {
  }

  lemma Pieces01Disjoint()
    ensures KeysDisjoint(Entries0To9, Entries10To19)
  {
  }

  lemma Pieces02Disjoint()
    ensures KeysDisjoint(Entries0To9, Entries20To29)
  {
  }

  lemma Pieces03Disjoint()
    ensures KeysDisjoint(Entries0To9, Entries30To39)
  {
  }

  lemma Pieces04Disjoint()
    ensures KeysDisjoint(Entries0To9, Entries40To49)
  {
  }

  lemma Pieces05Disjoint()
    ensures KeysDisjoint(Entries0To9, Entries50To56)
  {
  }

  lemma Pieces12Disjoint()
    ensures KeysDisjoint(Entries10To19, Entries20To29)
  {
  }

  lemma Pieces13Disjoint()
    ensures KeysDisjoint(Entries10To19, Entries30To39)
  {
  }

  lemma Pieces14Disjoint()
    ensures KeysDisjoint(Entries10To19, Entries40To49)
  {
  }

  lemma Pieces15Disjoint()
    ensures KeysDisjoint(Entries10To19, Entries50To56)
  {
  }

  lemma Pieces23Disjoint()
    ensures KeysDisjoint(Entries20To29, Entries30To39)
  {
  }

  lemma Pieces24Disjoint()
    ensures KeysDisjoint(Entries20To29, Entries40To49)
  {
  }

  lemma Pieces25Disjoint()
    ensures KeysDisjoint(Entries20To29, Entries50To56)
  {
  }

  lemma Pieces34Disjoint()
    ensures KeysDisjoint(Entries30To39, Entries40To49)
  {
  }

  lemma Pieces35Disjoint()
    ensures KeysDisjoint(Entries30To39, Entries50To56)
  {
  }

  lemma Pieces45Disjoint()
    ensures KeysDisjoint(Entries40To49, Entries50To56)
  {
  }

  /** The keys of the table are pairwise distinct. */
  lemma DomainKeysDistinct()
    ensures KeysDistinct(DomainMap)
  {
    Entries0To9Distinct();
    Entries10To19Distinct();
    Entries20To29Distinct();
    Entries30To39Distinct();
    Entries40To49Distinct();
    Entries50To56Distinct();
    Pieces01Disjoint();
    Pieces02Disjoint();
    Pieces03Disjoint();
    Pieces04Disjoint();
    Pieces05Disjoint();
    Pieces12Disjoint();
    Pieces13Disjoint();
    Pieces14Disjoint();
    Pieces15Disjoint();
    Pieces23Disjoint();
    Pieces24Disjoint();
    Pieces25Disjoint();
    Pieces34Disjoint();
    Pieces35Disjoint();
    Pieces45Disjoint();
    SixPiecesDistinct(Entries0To9, Entries10To19, Entries20To29, Entries30To39, Entries40To49, Entries50To56);
  }

  /** With the longest-key lookup, a host equal to any key of the table gets
      that key's label. */
  lemma TableNamesEveryKey(i: nat)
    requires i < |DomainMap|
    ensures TableLabel(DomainMap[i].0) == DomainMap[i].1
  {
    EveryEntryReachable(DomainMap, i);
    DomainKeysDistinct();
  }

  /** A non-empty string occurring in `h` has its first character in `h`. */
  lemma FirstCharPresent(n: string, h: string)
    requires n != []
    ensures IsSubstring(n, h) ==> n[0] in h
  {
    SubstringAt(n, h);
    if IsSubstring(n, h) {
      var i :| OccursAt(n, h, i);
      assert h[i] == n[0];
    }
  }

  /** `chosun.com` occurs in both of its subsidiaries' hosts. */
  lemma ChosunOccursIn(host: string, at: nat)
    requires at + 10 <= |host| && host[at..at + 10] == "chosun.com"
    ensures IsSubstring("chosun.com", host)
  {
    assert OccursAt("chosun.com", host, at);
    SubstringAt("chosun.com", host);
  }

  /** As written, every host containing `chosun.com` (and no `y`, which rules
      out the two entries before it) is reported as 조선일보. */
  lemma ChosunWinsAsWritten(host: string, at: nat)
    requires 'y' !in host
    requires at + 10 <= |host| && host[at..at + 10] == "chosun.com"
    ensures TableLabelAsWritten(host) == "조선일보"
  {
    assert Entries0To9[0].0 == "yna.co.kr" && Entries0To9[1].0 == "yonhapnews.co.kr";
    assert Entries0To9[2] == ("chosun.com", "조선일보");
    assert DomainMap[..10] == Entries0To9;
    FirstCharPresent("yna.co.kr", host);
    FirstCharPresent("yonhapnews.co.kr", host);
    ChosunOccursIn(host, at);
    assert FirstMatchFrom(DomainMap, host, 2) == Some(2);
    assert FirstMatchFrom(DomainMap, host, 1) == Some(2);
  }

  lemma SubsidiaryEntries()
    ensures DomainMap[29] == ("tvchosun.com", "TV조선") && DomainMap[38] == ("biz.chosun.com", "조선비즈")
  {
    assert DomainMap[20..30] == Entries20To29;
    assert DomainMap[30..40] == Entries30To39;
  }

  /** `tvchosun.com`: 조선일보 as written, TV조선 with the longest-key lookup. */
  lemma TvChosunLabels()
    ensures TableLabelAsWritten("tvchosun.com") == "조선일보"
    ensures TableLabel("tvchosun.com") == "TV조선"
  {
    var tv := "tvchosun.com";
    assert tv[2..12] == "chosun.com";
    ChosunWinsAsWritten(tv, 2);
    SubsidiaryEntries();
    TableNamesEveryKey(29);
  }

  /** `biz.chosun.com`: 조선일보 as written, 조선비즈 with the longest-key lookup. */
  lemma BizChosunLabels()
    ensures TableLabelAsWritten("biz.chosun.com") == "조선일보"
    ensures TableLabel("biz.chosun.com") == "조선비즈"
  {
    var biz := "biz.chosun.com";
    assert biz[4..14] == "chosun.com";
    ChosunWinsAsWritten(biz, 4);
    SubsidiaryEntries();
    TableNamesEveryKey(38);
  }

  /** As written, `chosun.com` (third entry) is found in `tvchosun.com` and
      `biz.chosun.com` before their own entries (30th and 39th), so those two
      outlets are reported as 조선일보; the longest-key lookup names them. */
  lemma ChosunShadowsSubsidiaries()
    ensures DomainMap[29] == ("tvchosun.com", "TV조선") && DomainMap[38] == ("biz.chosun.com", "조선비즈")
    ensures TableLabelAsWritten("tvchosun.com") == "조선일보"
    ensures TableLabelAsWritten("biz.chosun.com") == "조선일보"
    ensures TableLabel("tvchosun.com") == "TV조선"
    ensures TableLabel("biz.chosun.com") == "조선비즈"
  {
    SubsidiaryEntries();
    TvChosunLabels();
    BizChosunLabels();
  }
}
