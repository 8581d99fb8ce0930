/** The SMS-page classifier `SMSPageCrawler.has_sms_features`: a page counts
    as an SMS verification page when its lower-cased content contains one of
    the verification-code keywords AND one of the phone-input patterns. */
module SmsClassifier {
  import opened PyStr

  /** The verification-code keywords, as the source lists them. */
  const SmsKeywords: seq<string> := [
    "短信验证码", "验证码", "SMS", "verification code",
    "mobile verification", "手机验证", "发送验证码",
    "send code", "获取验证码"
  ]

  /** The phone-input patterns, as the source lists them. */
  const PhonePatterns: seq<string> := [
    "type=\"tel\"", "phone", "mobile", "tel", "手机", "电话"
  ]

  /** `any(w.lower() in contentLower for w in words)`. */
  predicate AnyLoweredIn(words: seq<string>, contentLower: string)
  {
    |words| > 0 && (Occurs(Lower(words[0]), contentLower) || AnyLoweredIn(words[1..], contentLower))
  }

  /** `has_sms_features(html_content)`. */
  predicate HasSmsFeatures(html: string)
  {
    var contentLower := Lower(html);
    AnyLoweredIn(SmsKeywords, contentLower) && AnyLoweredIn(PhonePatterns, contentLower)
  }

  /** Some word of `words`, lower-cased, starts at some position of `content`. */
  ghost predicate SomeWordOccurs(words: seq<string>, content: string)
  {
    exists w, i :: w in words && OccursAt(Lower(w), content, i)
  }

  /** `AnyLoweredIn` is the existential it is written to compute. */
  lemma {:induction false} AnyLoweredInIff(words: seq<string>, contentLower: string)
    ensures AnyLoweredIn(words, contentLower) <==> SomeWordOccurs(words, contentLower)
  {
    if |words| > 0 {
      AnyLoweredInIff(words[1..], contentLower);
      OccursIff(Lower(words[0]), contentLower);
      if SomeWordOccurs(words, contentLower) {
        var w, i :| w in words && OccursAt(Lower(w), contentLower, i);
        if w != words[0] {
          assert w in words[1..];
        }
      }
      if SomeWordOccurs(words[1..], contentLower) {
        var w, i :| w in words[1..] && OccursAt(Lower(w), contentLower, i);
        assert w in words;
      }
    }
  }

  /** The classifier's verdict: true exactly when some keyword and some phone
      pattern, both lower-cased, occur in the lower-cased content. */
  lemma HasSmsFeaturesIff(html: string)
    ensures HasSmsFeatures(html) <==>
              SomeWordOccurs(SmsKeywords, Lower(html)) && SomeWordOccurs(PhonePatterns, Lower(html))
  {
    AnyLoweredInIff(SmsKeywords, Lower(html));
    AnyLoweredInIff(PhonePatterns, Lower(html));
  }

  /** Neither condition alone is enough: without a phone pattern, or without
      a keyword, the page is not classified as an SMS page. */
  lemma BothConditionsNeeded(html: string)
    ensures !SomeWordOccurs(PhonePatterns, Lower(html)) ==> !HasSmsFeatures(html)
    ensures !SomeWordOccurs(SmsKeywords, Lower(html)) ==> !HasSmsFeatures(html)
  {
    HasSmsFeaturesIff(html);
  }

  /** Two contents that agree up to ASCII letter case get the same verdict. */
  lemma CaseInsensitive(a: string, b: string)
    requires |a| == |b|
    requires forall i :: 0 <= i < |a| ==> LowerChar(a[i]) == LowerChar(b[i])
    ensures HasSmsFeatures(a) == HasSmsFeatures(b)
  {
    assert Lower(a) == Lower(b);
  }

  /** Lower-casing or upper-casing the page first does not change the verdict. */
  lemma VerdictIgnoresCase(html: string)
    ensures HasSmsFeatures(Lower(html)) == HasSmsFeatures(html)
    ensures HasSmsFeatures(Upper(html)) == HasSmsFeatures(html)
  {
    LowerIdempotent(html);
    LowerOfUpper(html);
  }

  /** Two of the keywords contain a phone pattern themselves: a page that
      mentions "mobile verification" or "手机验证" is an SMS page even when no
      other phone pattern occurs in it. */
  lemma KeywordsImplyingPhone(html: string, i: int)
    ensures OccursAt(Lower(SmsKeywords[4]), Lower(html), i) ==> HasSmsFeatures(html)
    ensures OccursAt(Lower(SmsKeywords[5]), Lower(html), i) ==> HasSmsFeatures(html)
  {
    HasSmsFeaturesIff(html);
    var content := Lower(html);
    if OccursAt(Lower(SmsKeywords[4]), content, i) {
      assert forall k :: 0 <= k < 6 ==> Lower(PhonePatterns[2])[k] == Lower(SmsKeywords[4])[k];
      assert OccursAt(Lower(PhonePatterns[2]), content, i);
    }
    if OccursAt(Lower(SmsKeywords[5]), content, i) {
      assert forall k :: 0 <= k < 2 ==> Lower(PhonePatterns[4])[k] == Lower(SmsKeywords[5])[k];
      assert OccursAt(Lower(PhonePatterns[4]), content, i);
    }
  }
}
