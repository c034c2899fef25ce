/**
 * slugify: turns a category name into the file-name fragment used in
 * destination names ("Defunciones fetales" becomes "defunciones_fetales").
 */
module Slug {
  import opened Text

  /** The slug returned when nothing of the input survives the filters. */
  const FALLBACK: string := "categoria"

  /** The output alphabet: the only characters a slug may contain. */
  const ALLOWED: string := "abcdefghijklmnopqrstuvwxyz0123456789_-"

  /** Membership in ALLOWED, by ranges (AllowedIsAlphabet shows they agree). */
  predicate IsAllowed(c: char)
  {
    ('a' <= c <= 'z') || ('0' <= c <= '9') || c == '_' || c == '-'
  }

  /** Nonspacing marks (Unicode category Mn), as far as this model knows them:
      the Combining Diacritical Marks block, which holds every accent that
      decomposition splits off a Latin letter. */
  predicate IsNonspacingMark(c: char)
  {
    '\U{0300}' <= c <= '\U{036F}'
  }

  predicate IsUnaccented(c: char)
  {
    !IsNonspacingMark(c)
  }

  /** The steps before the final filter: drop accents, lower-case, strip
      surrounding whitespace, turn spaces into underscores. */
  function Prepared(text: string): string
  {
    var unaccented := Filter(text, IsUnaccented);
    ReplaceChar(Strip(Lower(unaccented), IsSpace), ' ', '_')
  }

  /** The slug of `text`, which is taken to be in decomposed (NFD) form. */
  function Slugify(text: string): (r: string)
    ensures r != []
    ensures forall k :: 0 <= k < |r| ==> IsAllowed(r[k])
    ensures forall k :: 0 <= k < |r| ==> r[k] != ' ' && !('A' <= r[k] <= 'Z')
  {
    var kept := Filter(Prepared(text), IsAllowed);
    if kept == [] then FALLBACK else kept
  }

  /** When no character of the input, lower-cased, is in the alphabet (and none
      is a space, which would become an underscore), the slug is FALLBACK. */
  lemma SlugifyFallback(text: string)
    requires forall k :: 0 <= k < |text| ==> text[k] != ' ' && !IsAllowed(LowerChar(text[k]))
    ensures Slugify(text) == FALLBACK
  {
    var unaccented := Filter(text, IsUnaccented);
    var lowered := Lower(unaccented);
    forall k | 0 <= k < |lowered| ensures lowered[k] != ' ' && !IsAllowed(lowered[k]) {
      assert unaccented[k] in unaccented;
      var m :| 0 <= m < |text| && text[m] == unaccented[k];
    }
    var stripped := Strip(lowered, IsSpace);
    var i, j := StripIsSlice(lowered, IsSpace);
    var prepared := ReplaceChar(stripped, ' ', '_');
    forall k | 0 <= k < |prepared| ensures !IsAllowed(prepared[k]) {
      assert stripped[k] == lowered[i + k];
    }
    FilterNone(prepared, IsAllowed);
  }

  /** IsAllowed is exactly membership in the ALLOWED alphabet. */
  lemma AllowedIsAlphabet(c: char)
    ensures IsAllowed(c) <==> c in ALLOWED
  {
    AlphabetLayout();
    assert forall i :: 0 <= i < |ALLOWED| ==> IsAllowed(ALLOWED[i]);
    if 'a' <= c <= 'z' {
      assert ALLOWED[c as int - 'a' as int] == c;
    } else if '0' <= c <= '9' {
      assert ALLOWED[c as int - '0' as int + 26] == c;
    }
  }

  /** ALLOWED is the letters a-z, then the digits 0-9, then '_' and '-'. */
  lemma AlphabetLayout()
    ensures |ALLOWED| == 38
    ensures forall i :: 0 <= i < 26 ==> ALLOWED[i] as int == 'a' as int + i
    ensures forall i :: 26 <= i < 36 ==> ALLOWED[i] as int == '0' as int + i - 26
    ensures ALLOWED[36] == '_' && ALLOWED[37] == '-'
  {
  }

  /** A non-empty string over the alphabet is its own slug. */
  lemma SlugIsFixedPoint(s: string)
    requires s != []
    requires forall k :: 0 <= k < |s| ==> IsAllowed(s[k])
    ensures Slugify(s) == s
  {
    FilterMarksKeeps(s);
    LowerKeeps(s);
    StripKeeps(s);
    ReplaceKeeps(s);
    assert Prepared(s) == s;
    assert Filter(s, IsAllowed) == s;
  }

  lemma FilterMarksKeeps(s: string)
    requires forall k :: 0 <= k < |s| ==> IsAllowed(s[k])
    ensures Filter(s, IsUnaccented) == s
  {
  }

  lemma LowerKeeps(s: string)
    requires forall k :: 0 <= k < |s| ==> IsAllowed(s[k])
    ensures Lower(s) == s
  {
  }

  lemma StripKeeps(s: string)
    requires s != []
    requires forall k :: 0 <= k < |s| ==> IsAllowed(s[k])
    ensures Strip(s, IsSpace) == s
  {
  }

  lemma ReplaceKeeps(s: string)
    requires forall k :: 0 <= k < |s| ==> IsAllowed(s[k])
    ensures ReplaceChar(s, ' ', '_') == s
  {
  }

  /** Slugify is idempotent. */
  lemma SlugifyIdempotent(text: string)
    ensures Slugify(Slugify(text)) == Slugify(text)
  {
    SlugIsFixedPoint(Slugify(text));
  }

  /** Text made of ASCII letters and inner spaces, like the category names. */
  predicate IsPlainName(t: string)
  {
    && t != []
    && (forall k :: 0 <= k < |t| ==> ('A' <= t[k] <= 'Z') || ('a' <= t[k] <= 'z') || t[k] == ' ')
    && t[0] != ' ' && t[|t| - 1] != ' '
  }

  /** The slug of a plain name is the name lower-cased with spaces turned into
      underscores: nothing is dropped and the fallback is never used. */
  lemma PlainNameSlug(t: string)
    requires IsPlainName(t)
    ensures |Slugify(t)| == |t|
    ensures forall k :: 0 <= k < |t| ==> Slugify(t)[k] == if t[k] == ' ' then '_' else LowerChar(t[k])
  {
    PlainNameReplaced(t);
  }

  lemma PlainNameReplaced(t: string)
    requires IsPlainName(t)
    ensures Slugify(t) == ReplaceChar(Lower(t), ' ', '_')
  {
    var replaced := ReplaceChar(Lower(t), ' ', '_');
    PlainNamePrepared(t);
    PlainNameAllowed(t);
    AllowedKept(replaced);
    assert Filter(Prepared(t), IsAllowed) == replaced;
  }

  lemma PlainNameAllowed(t: string)
    requires IsPlainName(t)
    ensures forall k :: 0 <= k < |t| ==> IsAllowed(ReplaceChar(Lower(t), ' ', '_')[k])
  {
  }

  lemma PlainNamePrepared(t: string)
    requires IsPlainName(t)
    ensures Prepared(t) == ReplaceChar(Lower(t), ' ', '_')
  {
    NoMarksKept(t);
    var lowered := Lower(t);
    LowerEnds(t);
    assert Strip(lowered, IsSpace) == lowered;
  }

  lemma LowerEnds(t: string)
    requires IsPlainName(t)
    ensures !IsSpace(Lower(t)[0]) && !IsSpace(Lower(t)[|t| - 1])
  {
  }

  lemma NoMarksKept(t: string)
    requires forall k :: 0 <= k < |t| ==> t[k] <= '\U{007F}'
    ensures Filter(t, IsUnaccented) == t
  {
  }

  lemma AllowedKept(s: string)
    requires forall k :: 0 <= k < |s| ==> IsAllowed(s[k])
    ensures Filter(s, IsAllowed) == s
  {
  }
}
