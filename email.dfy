/**
 * Case folding of e-mail addresses.  The host lower-cases an address before
 * looking up an account, and stores account addresses lower-cased; only ASCII
 * letters are folded here.
 */
module Email {

  predicate IsUpper(c: char) {
    'A' <= c <= 'Z'
  }

  function LowerChar(c: char): char {
    if IsUpper(c) then (c as int - 'A' as int + 'a' as int) as char else c
  }

  /** True when `s` has no upper-case ASCII letter, i.e. it is already in canonical form. */
  predicate IsLower(s: string) {
    forall i :: 0 <= i < |s| ==> !IsUpper(s[i])
  }

  /** The canonical (lower-cased) form of an address. */
  function Downcase(s: string): (r: string)
    ensures |r| == |s|
    ensures IsLower(r)
    ensures forall i :: 0 <= i < |s| && !IsUpper(s[i]) ==> r[i] == s[i]
    ensures forall i :: 0 <= i < |s| && IsUpper(s[i]) ==> r[i] as int == s[i] as int + 32
  {
    seq(|s|, i requires 0 <= i < |s| => LowerChar(s[i]))
  }

  /** Two addresses name the same mailbox when their canonical forms agree. */
  predicate SameAddress(a: string, b: string) {
    Downcase(a) == Downcase(b)
  }

  /** An address already in canonical form is its own canonical form. */
  lemma DowncaseOfLower(s: string)
    requires IsLower(s)
    ensures Downcase(s) == s
  {
  }

  /** Folding twice is folding once. */
  lemma DowncaseIdempotent(s: string)
    ensures Downcase(Downcase(s)) == Downcase(s)
  {
    DowncaseOfLower(Downcase(s));
  }

  /**
   * Over a set of addresses stored in canonical form, looking up the canonical
   * form of `email` finds exactly the stored addresses naming the same mailbox.
   */
  lemma LookupIsCaseInsensitive(stored: set<string>, email: string)
    requires forall e :: e in stored ==> IsLower(e)
    ensures Downcase(email) in stored <==> exists e :: e in stored && SameAddress(e, email)
  {
    if e :| e in stored && SameAddress(e, email) {
      DowncaseOfLower(e);
    }
    if Downcase(email) in stored {
      DowncaseIdempotent(email);
      assert SameAddress(Downcase(email), email);
    }
  }
}
