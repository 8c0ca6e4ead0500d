/** The server-side rules both employee-settings forms evaluate: the byte
    classes of their regular expressions and the email domain allow-list.
    Each predicate below is the part of a "/^X$/" pattern between the
    anchors; Php.PregMatchAnchored adds the anchors. */
module Patterns {
  import opened Php

  predicate IsAsciiLetter(b: Byte) {
    ('a' <= b <= 'z') || ('A' <= b <= 'Z')
  }

  predicate IsDigit(b: Byte) {
    '0' <= b <= '9'
  }

  predicate AllDigits(s: Bytes) {
    forall i | 0 <= i < |s| :: IsDigit(s[i])
  }

  /** `[a-zA-Z ]{5,30}`: the name rule of the AJAX form. */
  predicate StrictName(s: Bytes) {
    5 <= |s| <= 30 && forall i | 0 <= i < |s| :: IsAsciiLetter(s[i]) || s[i] == ' '
  }

  /** A byte of the class `[a-zA-Z-' ]`: letters, hyphen, apostrophe, space. */
  predicate IsLenientNameByte(b: Byte) {
    IsAsciiLetter(b) || b == '-' || b == '\'' || b == ' '
  }

  /** `[a-zA-Z-' ]*`: the name pattern of the plain form. */
  predicate LenientName(s: Bytes) {
    forall i | 0 <= i < |s| :: IsLenientNameByte(s[i])
  }

  /** `[1-9][0-9]{9}`: the phone rule of both forms. */
  predicate TenDigitPhone(s: Bytes) {
    |s| == 10 && '1' <= s[0] <= '9' && forall i | 1 <= i < |s| :: IsDigit(s[i])
  }

  /** The phone pattern restated in words, "ten digits, the first of them
      not 0", with every byte read through AllDigits. */
  lemma TenDigitPhoneIff(s: Bytes)
    ensures TenDigitPhone(s) <==> |s| == 10 && '1' <= s[0] <= '9' && AllDigits(s)
  {
  }

  const AllowedDomains: seq<Bytes> := ["gmail.com", "yahoo.com", "outlook.com", "mail.com", "innoraft.com"]

  /** The allow-list holds five distinct domains, none with an "@", an
      upper-case letter or a trim byte, so each can be the text after the
      last "@" of a trimmed address. */
  lemma AllowedDomainsShape()
    ensures |AllowedDomains| == 5
    ensures forall k, m | 0 <= k < m < |AllowedDomains| :: AllowedDomains[k] != AllowedDomains[m]
    ensures forall k | 0 <= k < |AllowedDomains| ::
      AllowedDomains[k] != [] && '@' !in AllowedDomains[k] && IsTrimmed(AllowedDomains[k])
    ensures forall k, j | 0 <= k < |AllowedDomains| && 0 <= j < |AllowedDomains[k]| ::
      !('A' <= AllowedDomains[k][j] <= 'Z') && !IsTrimByte(AllowedDomains[k][j])
  {
  }

  /** array_pop(explode('@', $email)): the text after the last "@", or the
      whole address when it has none. */
  function EmailDomain(email: Bytes): (domain: Bytes)
    ensures '@' !in domain && HasSuffix(email, domain)
    ensures |domain| < |email| ==> email[|email| - |domain| - 1] == '@'
  {
    var parts := Explode('@', email);
    LastPieceFollowsLastDelimiter('@', email);
    parts[|parts| - 1]
  }

  /** in_array($domain, $allowed_domains). The comparison is PHP's loose
      `==`, which on two strings that are not both numeric is byte
      equality; no allowed domain is numeric. */
  predicate DomainAllowed(email: Bytes) {
    EmailDomain(email) in AllowedDomains
  }

  /** The domain test read off the address itself: the address is an
      allowed domain on its own, or ends with "@" and an allowed domain. */
  lemma DomainAllowedIff(email: Bytes)
    ensures DomainAllowed(email) <==>
      exists k | 0 <= k < |AllowedDomains| ::
        email == AllowedDomains[k] || HasSuffix(email, ['@'] + AllowedDomains[k])
  {
    forall k | 0 <= k < |AllowedDomains|
      ensures EmailDomain(email) == AllowedDomains[k] <==>
        email == AllowedDomains[k] || HasSuffix(email, ['@'] + AllowedDomains[k])
    {
      assert '@' !in AllowedDomains[k];
      LastPieceIs('@', email, AllowedDomains[k]);
    }
  }
}
