/** The prayer card's icon lookup: a prayer name is lower-cased and
    searched for keywords in a fixed order; the first keyword that occurs
    decides the Material icon, and a name with none of them gets the
    generic clock icon. */
module PrayerIcons {
  import opened Text
  import opened Schedule

  const Fallback: string := "schedule"

  /** One step of the lookup: any of `keywords` occurring selects `icon`. */
  datatype IconRule = IconRule(keywords: seq<string>, icon: string)

  /** The lookup order; Fajr comes first, so "fajr" wins over every later keyword. */
  const Rules: seq<IconRule> := [
    IconRule(["fajr"], "wb_twilight"),
    IconRule(["sunrise", "shuruq"], "light_mode"),
    IconRule(["dhuhr"], "sunny"),
    IconRule(["asr"], "wb_sunny"),
    IconRule(["maghrib"], "dark_mode"),
    IconRule(["isha"], "bedtime")
  ]

  /** Some keyword of `rule` occurs in the (already lower-cased) `lower`. */
  predicate RuleMatches(lower: string, rule: IconRule) {
    exists k :: 0 <= k < |rule.keywords| && Contains(lower, rule.keywords[k])
  }

  /** The icon for a prayer name, in the order the card tests the keywords. */
  function IconFor(name: string): string
  {
    var lower := Lower(name);
    if Contains(lower, "fajr") then "wb_twilight"
    else if Contains(lower, "sunrise") || Contains(lower, "shuruq") then "light_mode"
    else if Contains(lower, "dhuhr") then "sunny"
    else if Contains(lower, "asr") then "wb_sunny"
    else if Contains(lower, "maghrib") then "dark_mode"
    else if Contains(lower, "isha") then "bedtime"
    else Fallback
  }

  /** The icons of the rules and the fallback are pairwise different, so an
      icon names the rule that chose it. */
  lemma IconsDistinct()
    ensures forall i, j :: 0 <= i < j < |Rules| ==> Rules[i].icon != Rules[j].icon
    ensures forall i :: 0 <= i < |Rules| ==> Rules[i].icon != Fallback
  {
  }

  /** The lookup picks the icon of rule `i` exactly when rule `i` matches the
      lower-cased name and no earlier rule does. */
  lemma {:induction false} IconForFirstMatch(name: string, i: nat)
    requires i < |Rules|
    ensures IconFor(name) == Rules[i].icon <==>
      (RuleMatches(Lower(name), Rules[i]) && forall j :: 0 <= j < i ==> !RuleMatches(Lower(name), Rules[j]))
  {
    var lower := Lower(name);
    IconsDistinct();
    assert RuleMatches(lower, Rules[0]) <==> Contains(lower, "fajr") by {
      assert Rules[0].keywords[0] == "fajr";
    }
    assert RuleMatches(lower, Rules[1]) <==> Contains(lower, "sunrise") || Contains(lower, "shuruq") by {
      assert Rules[1].keywords[0] == "sunrise" && Rules[1].keywords[1] == "shuruq";
    }
    assert RuleMatches(lower, Rules[2]) <==> Contains(lower, "dhuhr") by {
      assert Rules[2].keywords[0] == "dhuhr";
    }
    assert RuleMatches(lower, Rules[3]) <==> Contains(lower, "asr") by {
      assert Rules[3].keywords[0] == "asr";
    }
    assert RuleMatches(lower, Rules[4]) <==> Contains(lower, "maghrib") by {
      assert Rules[4].keywords[0] == "maghrib";
    }
    assert RuleMatches(lower, Rules[5]) <==> Contains(lower, "isha") by {
      assert Rules[5].keywords[0] == "isha";
    }
  }

  /** Every icon the lookup returns is the fallback or the icon of a rule. */
  lemma IconIsRuleIconOrFallback(name: string)
    ensures IconFor(name) == Fallback || exists i :: 0 <= i < |Rules| && IconFor(name) == Rules[i].icon
  {
    var r := IconFor(name);
    if r == "wb_twilight" { assert r == Rules[0].icon; }
    else if r == "light_mode" { assert r == Rules[1].icon; }
    else if r == "sunny" { assert r == Rules[2].icon; }
    else if r == "wb_sunny" { assert r == Rules[3].icon; }
    else if r == "dark_mode" { assert r == Rules[4].icon; }
    else if r == "bedtime" { assert r == Rules[5].icon; }
  }

  /** The generic icon is shown exactly when no keyword of any rule occurs. */
  lemma {:induction false} FallbackIffNoKeyword(name: string)
    ensures IconFor(name) == Fallback <==> forall i :: 0 <= i < |Rules| ==> !RuleMatches(Lower(name), Rules[i])
  {
    IconsDistinct();
    IconIsRuleIconOrFallback(name);
    if IconFor(name) != Fallback {
      var i :| 0 <= i < |Rules| && IconFor(name) == Rules[i].icon;
      IconForFirstMatch(name, i);
    }
    if IconFor(name) == Fallback {
      forall i | 0 <= i < |Rules|
        ensures !RuleMatches(Lower(name), Rules[i])
      {
        IconForFirstMatch(name, i);
      }
    }
  }

  /** The lookup ignores ASCII letter case. */
  lemma CaseInsensitive(name: string)
    ensures IconFor(Lower(name)) == IconFor(name)
  {
    LowerIdempotent(name);
  }

  /** A keyword with a character the text lacks does not occur in it. */
  lemma {:induction false} MissingCharNotContained(s: string, t: string, k: nat)
    requires k < |t| && t[k] !in s
    ensures !Contains(s, t)
    decreases |s|
  {
    if k < |s| {
      assert s[k] in s;
    }
    if |s| > 0 {
      MissingCharNotContained(s[1..], t, k);
    }
  }

  /** A name lacking one character of each morning keyword contains none
      of them. */
  lemma LacksMorningKeywords(s: string, kf: nat, ks: nat, kq: nat)
    requires kf < |"fajr"| && "fajr"[kf] !in s
    requires ks < |"sunrise"| && "sunrise"[ks] !in s
    requires kq < |"shuruq"| && "shuruq"[kq] !in s
    ensures !Contains(s, "fajr") && !Contains(s, "sunrise") && !Contains(s, "shuruq")
  {
    MissingCharNotContained(s, "fajr", kf);
    MissingCharNotContained(s, "sunrise", ks);
    MissingCharNotContained(s, "shuruq", kq);
  }

  lemma LowerMorningNames()
    ensures Lower("Fajr") == "fajr" && Lower("Shuruq") == "shuruq" && Lower("Dhuhr") == "dhuhr"
  {
    assert Lower("Fajr")[0] == 'f';
    assert Lower("Shuruq")[0] == 's';
    assert Lower("Dhuhr")[0] == 'd';
  }

  lemma LowerEveningNames()
    ensures Lower("Asr") == "asr" && Lower("Maghrib") == "maghrib" && Lower("Isha") == "isha"
  {
    assert Lower("Asr")[0] == 'a';
    assert Lower("Maghrib")[0] == 'm';
    assert Lower("Isha")[0] == 'i';
  }

  lemma FajrIcon()
    ensures IconFor("Fajr") == "wb_twilight"
  {
    LowerMorningNames();
    assert Contains("fajr", "fajr");
  }

  lemma ShuruqLacksFajrSunrise()
    ensures !Contains("shuruq", "fajr") && !Contains("shuruq", "sunrise")
  {
    MissingCharNotContained("shuruq", "fajr", 0);
    MissingCharNotContained("shuruq", "sunrise", 2);
  }

  lemma ShuruqIcon()
    ensures IconFor("Shuruq") == "light_mode"
  {
    LowerMorningNames();
    ShuruqLacksFajrSunrise();
    assert Contains("shuruq", "shuruq");
  }

  lemma DhuhrIcon()
    ensures IconFor("Dhuhr") == "sunny"
  {
    LowerMorningNames();
    LacksMorningKeywords("dhuhr", 0, 0, 0);
    assert Contains("dhuhr", "dhuhr");
  }

  lemma AsrLacksDhuhr()
    ensures !Contains("asr", "dhuhr")
  {
    MissingCharNotContained("asr", "dhuhr", 0);
  }

  lemma AsrIcon()
    ensures IconFor("Asr") == "wb_sunny"
  {
    LowerEveningNames();
    LacksMorningKeywords("asr", 0, 2, 1);
    AsrLacksDhuhr();
    assert Contains("asr", "asr");
  }

  lemma MaghribLacksDhuhrAsr()
    ensures !Contains("maghrib", "dhuhr") && !Contains("maghrib", "asr")
  {
    MissingCharNotContained("maghrib", "dhuhr", 0);
    MissingCharNotContained("maghrib", "asr", 1);
  }

  lemma MaghribIcon()
    ensures IconFor("Maghrib") == "dark_mode"
  {
    LowerEveningNames();
    LacksMorningKeywords("maghrib", 0, 0, 0);
    MaghribLacksDhuhrAsr();
    assert Contains("maghrib", "maghrib");
  }

  lemma IshaLacksDhuhrAsrMaghrib()
    ensures !Contains("isha", "dhuhr") && !Contains("isha", "asr") && !Contains("isha", "maghrib")
  {
    MissingCharNotContained("isha", "dhuhr", 0);
    MissingCharNotContained("isha", "asr", 2);
    MissingCharNotContained("isha", "maghrib", 0);
  }

  lemma IshaIcon()
    ensures IconFor("Isha") == "bedtime"
  {
    LowerEveningNames();
    LacksMorningKeywords("isha", 0, 2, 2);
    IshaLacksDhuhrAsrMaghrib();
    assert Contains("isha", "isha");
  }

  /** The card's icon for one dashboard prayer other than Maghrib. */
  lemma CatalogIconAt(i: nat)
    requires i < |Catalog| && Catalog[i].key != Maghrib
    ensures IconFor(Catalog[i].name) == Catalog[i].icon
  {
    if i == 0 {
      FajrIcon();
    } else if i == 1 {
      ShuruqIcon();
    } else if i == 2 {
      DhuhrIcon();
    } else if i == 3 {
      AsrIcon();
    } else {
      IshaIcon();
    }
  }

  /** The card and the dashboard agree on every icon except Maghrib's: the
      card shows "dark_mode" where the dashboard's table shows "wb_twilight". */
  lemma CatalogIcons()
    ensures forall i :: 0 <= i < |Catalog| && Catalog[i].key != Maghrib ==> IconFor(Catalog[i].name) == Catalog[i].icon
    ensures IconFor(Catalog[4].name) == "dark_mode" != Catalog[4].icon
  {
    forall i | 0 <= i < |Catalog| && Catalog[i].key != Maghrib
      ensures IconFor(Catalog[i].name) == Catalog[i].icon
    {
      CatalogIconAt(i);
    }
    MaghribIcon();
  }
}
