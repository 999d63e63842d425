/**
 * The user-preference policies of includes/Hooks.php: the birth-date option and its
 * normalisation, the age threshold, the unblur opt-in, and the hooks that save
 * options, extend the parser-cache hash and validate the two preferences.
 * strtotime() and time() are inputs: `strtotime` maps a date string to a Unix
 * timestamp or None (PHP's false), `now` is the current timestamp.
 */
module Preferences {
  import opened Wrappers
  import opened Text
  import opened PhpText

  const OPT_UNBLUR := "nsfwblurred"
  const OPT_BIRTHDATE := "nsfw_birthdate"
  const OPT_BIRTHDATE_LEGACY := "nsfw_birthyear"
  const MIN_AGE := 18
  /** Seconds in a Julian year of 365.25 days. */
  const SECONDS_PER_YEAR := 31557600
  const MSG_BIRTHDATE_INVALID := "nsfwblur-birthdate-invalid"
  const MSG_NSFW_AGE := "nsfwblur-pref-nsfw-age"

  /** A user as the hooks see it: registered or anonymous, and the stored options. */
  datatype User = User(registered: bool, options: map<string, string>)

  /** A validation callback's answer: true, or the text of an error message. */
  datatype Validation = Accepted | Rejected(message: string)

  /** getOption($user, $key, ''): the stored value, or the empty string. */
  function OptionText(u: User, key: string): string
  {
    if key in u.options then u.options[key] else ""
  }

  /** getUserBirthDateOption: the date option, else the legacy year option when truthy. */
  function BirthDateOption(u: User): (r: Option<string>)
    ensures r.Some? ==> r.value != ""
    ensures OptionText(u, OPT_BIRTHDATE) != "" ==> r == Some(OptionText(u, OPT_BIRTHDATE))
    ensures r.None? <==> OptionText(u, OPT_BIRTHDATE) == "" && IsFalsyString(OptionText(u, OPT_BIRTHDATE_LEGACY))
  {
    var v := OptionText(u, OPT_BIRTHDATE);
    if v != "" then Some(v)
    else
      var legacy := OptionText(u, OPT_BIRTHDATE_LEGACY);
      if IsFalsyString(legacy) then None else Some(legacy)
  }

  predicate DigitsAt(s: string, lo: nat, hi: nat)
  {
    lo <= hi <= |s| && forall k :: lo <= k < hi ==> IsAsciiDigit(s[k])
  }

  /** `s` is exactly `YYYY-MM-DD` with decimal digits. */
  predicate IsIsoDate(s: string)
  {
    |s| == 10 && DigitsAt(s, 0, 4) && s[4] == '-' && DigitsAt(s, 5, 7) && s[7] == '-' && DigitsAt(s, 8, 10)
  }

  /** `s` is exactly four decimal digits. */
  predicate IsYear(s: string)
  {
    |s| == 4 && DigitsAt(s, 0, 4)
  }

  /**
   * preg_match with a pattern anchored by `^…$` and no D modifier: `$` also matches
   * just before a final newline, so the pattern accepts `s` or `s` minus that newline.
   */
  predicate AnchoredMatch(s: string, p: string -> bool)
  {
    p(s) || (|s| > 0 && s[|s| - 1] == '\n' && p(s[..|s| - 1]))
  }

  /**
   * normalizeBirthDateValue: a full date is kept as it is, a bare year becomes the
   * first of January of that year, anything else is rejected.
   */
  function NormalizeBirthDateValue(value: string): (r: Option<string>)
    ensures IsIsoDate(value) ==> r == Some(value)
    ensures IsYear(value) ==> r == Some(value + "-01-01")
    ensures r.None? <==> !AnchoredMatch(value, IsIsoDate) && !AnchoredMatch(value, IsYear)
    ensures r.Some? && (|value| == 0 || value[|value| - 1] != '\n') ==> IsIsoDate(r.value)
  {
    if AnchoredMatch(value, IsIsoDate) then Some(value)
    else if AnchoredMatch(value, IsYear) then Some(value + "-01-01")
    else None
  }

  /**
   * Because `$` also matches before a final newline, a year followed by a newline is
   * accepted and the month and day are appended after that newline.
   */
  lemma YearWithTrailingNewline(y: string)
    requires IsYear(y)
    ensures NormalizeBirthDateValue(y + "\n") == Some(y + "\n-01-01")
    ensures !IsIsoDate(y + "\n-01-01")
  {
    var s := y + "\n";
    assert s[..|s| - 1] == y;
    assert !IsIsoDate(s) && !IsIsoDate(s[..|s| - 1]);
    assert !AnchoredMatch(s, IsIsoDate);
    assert s[|s| - 1] == '\n' && IsYear(s[..|s| - 1]);
    assert AnchoredMatch(s, IsYear);
    assert s + "-01-01" == y + "\n-01-01";
    assert !IsIsoDate(y + "\n-01-01") by { assert (y + "\n-01-01")[4] == '\n'; }
  }

  /** getUserBirthDateDefault: the normalised birth date, or "" when there is none. */
  function BirthDateDefault(u: User): (r: string)
    ensures r != "" ==> BirthDateOption(u).Some? && NormalizeBirthDateValue(BirthDateOption(u).value) == Some(r)
    ensures BirthDateOption(u).None? ==> r == ""
    ensures BirthDateOption(u).Some? && NormalizeBirthDateValue(BirthDateOption(u).value).Some? ==>
              r == NormalizeBirthDateValue(BirthDateOption(u).value).value
    ensures r == "" <==> BirthDateOption(u).None? || NormalizeBirthDateValue(BirthDateOption(u).value).None?
  {
    match BirthDateOption(u)
    case None => ""
    case Some(v) =>
      if IsFalsyString(v) then ""
      else match NormalizeBirthDateValue(v)
        case None => ""
        case Some(d) => d
  }

  /**
   * isUserOldEnoughForNSFW: false without a birth date; otherwise at least 18 Julian
   * years have passed since the birth timestamp. PHP computes `time() - false` as
   * `time() - 0`, so a date that strtotime() cannot parse counts as the Unix epoch.
   */
  predicate IsUserOldEnough(u: User, strtotime: string -> Option<int>, now: int)
  {
    var date := BirthDateDefault(u);
    !IsFalsyString(date) &&
    var birth := match strtotime(date) case None => 0 case Some(t) => t;
    now - birth >= MIN_AGE * SECONDS_PER_YEAR
  }

  lemma OldEnoughNeedsDate(u: User, strtotime: string -> Option<int>, now: int)
    requires IsUserOldEnough(u, strtotime, now)
    ensures BirthDateOption(u).Some?
    ensures NormalizeBirthDateValue(BirthDateOption(u).value).Some?
  {
  }

  /** The age check is exactly a threshold on the birth timestamp. */
  lemma OldEnoughIsThreshold(u: User, strtotime: string -> Option<int>, now: int, birth: int)
    requires BirthDateDefault(u) != ""
    requires strtotime(BirthDateDefault(u)) == Some(birth)
    ensures IsUserOldEnough(u, strtotime, now) <==> birth <= now - 18 * 31557600
  {
    assert BirthDateDefault(u) != "0" by {
      var v := BirthDateOption(u).value;
      assert NormalizeBirthDateValue(v).Some?;
    }
  }

  /** An unparseable birth date passes the check once 18 years have passed since 1970. */
  lemma UnparseableDateCountsAsEpoch(u: User, strtotime: string -> Option<int>, now: int)
    requires BirthDateDefault(u) != ""
    requires strtotime(BirthDateDefault(u)).None?
    ensures IsUserOldEnough(u, strtotime, now) <==> now >= 18 * 31557600
  {
    assert BirthDateDefault(u) != "0" by {
      var v := BirthDateOption(u).value;
      assert NormalizeBirthDateValue(v).Some?;
    }
  }

  /** userWantsUnblur: a registered user who has switched the unblur option on. */
  predicate UserWantsUnblur(u: User)
  {
    u.registered && OPT_UNBLUR in u.options && ToBool(PStr(u.options[OPT_UNBLUR]))
  }

  lemma UnblurNeedsRegistrationAndOptIn(u: User)
    ensures UserWantsUnblur(u) <==> u.registered && OptionText(u, OPT_UNBLUR) != "" && OptionText(u, OPT_UNBLUR) != "0"
  {
  }

  /**
   * onUserSaveOptions: for a user who is not old enough the unblur option is forced
   * to 0; every other option, and every option of other users, is saved as given.
   * The age check reads the options already stored, not the ones being saved.
   */
  function OnUserSaveOptions(user: Option<User>, options: map<string, PhpValue>,
                             strtotime: string -> Option<int>, now: int): (r: map<string, PhpValue>)
    ensures forall k :: k != OPT_UNBLUR ==> (k in r <==> k in options)
    ensures forall k :: k in r && k != OPT_UNBLUR ==> r[k] == options[k]
    ensures user.Some? && !IsUserOldEnough(user.value, strtotime, now) ==>
              OPT_UNBLUR in r && !ToBool(r[OPT_UNBLUR])
    ensures (user.None? || IsUserOldEnough(user.value, strtotime, now)) ==> r == options
  {
    if user.Some? && !IsUserOldEnough(user.value, strtotime, now) then options[OPT_UNBLUR := PInt(0)]
    else options
  }

  /** Stored options are strings; the saved integer 0 is stored as "0". */
  function StoredText(v: PhpValue): string
  {
    match v
    case PNull => ""
    case PBool(b) => if b then "1" else ""
    case PInt(i) => if i == 0 then "0" else "1"
    case PStr(s) => s
  }

  /** An under-age user who saves any options does not want unblur afterwards. */
  lemma SaveKeepsUnderAgeBlurred(u: User, options: map<string, PhpValue>, strtotime: string -> Option<int>, now: int)
    requires !IsUserOldEnough(u, strtotime, now)
    ensures var saved := OnUserSaveOptions(Some(u), options, strtotime, now);
            !UserWantsUnblur(User(u.registered, u.options[OPT_UNBLUR := StoredText(saved[OPT_UNBLUR])]))
  {
  }

  /**
   * onPageRenderingHash: when there is a user, the hash gets `!nsfw:1` or `!nsfw:0`
   * appended, so blurred and unblurred renderings are cached apart.
   */
  function OnPageRenderingHash(confstr: string, user: Option<User>): (r: string)
    ensures user.None? ==> r == confstr
    ensures user.Some? ==> |r| == |confstr| + 7 && r[..|confstr|] == confstr
    ensures user.Some? ==> r[|confstr|..|confstr| + 6] == "!nsfw:"
    ensures user.Some? ==> r[|confstr| + 6] == (if UserWantsUnblur(user.value) then '1' else '0')
  {
    match user
    case None => confstr
    case Some(u) => confstr + "!nsfw:" + (if UserWantsUnblur(u) then "1" else "0")
  }

  /** Two users share a parser-cache entry exactly when they agree about unblurring. */
  lemma RenderingHashSeparatesUnblur(confstr: string, a: User, b: User)
    ensures OnPageRenderingHash(confstr, Some(a)) == OnPageRenderingHash(confstr, Some(b))
        <==> (UserWantsUnblur(a) <==> UserWantsUnblur(b))
  {
    var ha := OnPageRenderingHash(confstr, Some(a));
    var hb := OnPageRenderingHash(confstr, Some(b));
    if ha == hb {
      assert ha[|confstr| + 6] == hb[|confstr| + 6];
    }
  }

  /**
   * validateBirthDatePreference: an empty or missing value is accepted, any other
   * value has to normalise. The value is a string or null (None).
   */
  function ValidateBirthDatePreference(value: Option<string>): (r: Validation)
    ensures value.None? ==> r == Accepted
    ensures value == Some("") ==> r == Accepted
    ensures value.Some? && value.value != "" ==>
              (r == Accepted <==> NormalizeBirthDateValue(value.value).Some?)
    ensures r != Accepted ==> r == Rejected(MSG_BIRTHDATE_INVALID)
  {
    match value
    case None => Accepted
    case Some(v) =>
      if v == "" then Accepted
      else if NormalizeBirthDateValue(v).Some? then Accepted
      else Rejected(MSG_BIRTHDATE_INVALID)
  }

  /** Every date or year the form can submit is accepted. */
  lemma DatesAndYearsValidate(v: string)
    requires IsIsoDate(v) || IsYear(v)
    ensures ValidateBirthDatePreference(Some(v)) == Accepted
  {
  }

  /**
   * validateNsfwUnblurPreference: switching the option off is always accepted,
   * switching it on only for a user who is old enough.
   */
  function ValidateNsfwUnblurPreference(value: PhpValue, user: Option<User>,
                                        strtotime: string -> Option<int>, now: int): (r: Validation)
    ensures r == Accepted <==> !ToBool(value) || (user.Some? && IsUserOldEnough(user.value, strtotime, now))
    ensures r != Accepted ==> r == Rejected(MSG_NSFW_AGE)
  {
    if !ToBool(value) then Accepted
    else if user.Some? && IsUserOldEnough(user.value, strtotime, now) then Accepted
    else Rejected(MSG_NSFW_AGE)
  }
}
