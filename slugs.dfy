/**
 * Character classes and the slug derivation shared by the file-name parser
 * (`extract_slug_from_filename`) and the post scaffold (`create_post`).
 *
 * Both pieces of Rust code lower-case a string, keep alphanumeric characters,
 * turn each whitespace character into `-` and drop everything else.  The
 * model classifies characters by their ASCII meaning.
 */
module Slugs {

  /** `char::is_alphanumeric` restricted to ASCII. */
  predicate IsAlnum(c: char) {
    ('0' <= c <= '9') || ('a' <= c <= 'z') || ('A' <= c <= 'Z')
  }

  /** `char::is_whitespace` restricted to ASCII: tab, line feed, vertical tab,
      form feed, carriage return and space. */
  predicate IsWhitespace(c: char) {
    c == ' ' || c == '\t' || c == '\n' || c == '\U{B}' || c == '\U{C}' || c == '\r'
  }

  /** `char::to_lowercase` restricted to ASCII. */
  function Lower(c: char): (l: char)
    ensures IsAlnum(l) <==> IsAlnum(c)
    ensures IsWhitespace(l) <==> IsWhitespace(c)
    ensures !('A' <= l <= 'Z')
    ensures !('A' <= c <= 'Z') ==> l == c
  {
    if 'A' <= c <= 'Z' then (c as int - 'A' as int + 'a' as int) as char else c
  }

  /** A character that may appear in a derived slug. */
  predicate IsSlugChar(c: char) {
    ('0' <= c <= '9') || ('a' <= c <= 'z') || c == '-'
  }

  predicate IsSlugText(s: string) {
    forall i :: 0 <= i < |s| ==> IsSlugChar(s[i])
  }

  /** What one character of the input contributes to the slug. */
  function SlugPiece(c: char): (r: string)
    ensures |r| <= 1
    ensures IsSlugText(r)
    ensures CountHyphens(r) == if IsWhitespace(c) then 1 else 0
    ensures r != [] <==> IsAlnum(c) || IsWhitespace(c)
    ensures IsAlnum(c) ==> r == [Lower(c)]
    ensures IsWhitespace(c) ==> r == "-"
  {
    var l := Lower(c);
    if IsAlnum(l) then [l] else if IsWhitespace(l) then ['-'] else []
  }

  function CountWhitespace(s: string): nat {
    if s == [] then 0 else (if IsWhitespace(s[0]) then 1 else 0) + CountWhitespace(s[1..])
  }

  function CountHyphens(s: string): nat {
    if s == [] then 0 else (if s[0] == '-' then 1 else 0) + CountHyphens(s[1..])
  }

  /** The number of characters of `s` that are neither alphanumeric nor whitespace. */
  function CountDropped(s: string): nat {
    if s == [] then 0 else (if !IsAlnum(s[0]) && !IsWhitespace(s[0]) then 1 else 0) + CountDropped(s[1..])
  }

  /**
   * The lower-case / keep alphanumerics / whitespace-to-hyphen slug
   * (about.rs:143-156 and main.rs:66-79).  The result only holds slug
   * characters, one hyphen per whitespace character of the input, and is
   * exactly as much shorter than the input as the input has dropped
   * characters (hyphens already in the input among them).  On one
   * character it is that character's piece: its lower-case form when it is
   * alphanumeric, `-` when it is whitespace, nothing otherwise; with
   * `SlugifyAppend` this fixes the slug of every input.
   */
  function Slugify(s: string): (r: string)
    ensures IsSlugText(r)
    ensures CountHyphens(r) == CountWhitespace(s)
    ensures |r| + CountDropped(s) == |s|
    ensures |s| == 1 && IsAlnum(s[0]) ==> r == [Lower(s[0])]
    ensures |s| == 1 && IsWhitespace(s[0]) ==> r == "-"
    ensures |s| == 1 && !IsAlnum(s[0]) && !IsWhitespace(s[0]) ==> r == []
  {
    if s == [] then []
    else
      var piece, rest := SlugPiece(s[0]), Slugify(s[1..]);
      CountHyphensAppend(piece, rest);
      piece + rest
  }

  lemma {:induction false} CountHyphensAppend(a: string, b: string)
    ensures CountHyphens(a + b) == CountHyphens(a) + CountHyphens(b)
  {
    if a == [] {
      assert a + b == b;
    } else {
      assert (a + b)[1..] == a[1..] + b;
      CountHyphensAppend(a[1..], b);
    }
  }

  lemma {:induction false} CountWhitespaceAppend(a: string, b: string)
    ensures CountWhitespace(a + b) == CountWhitespace(a) + CountWhitespace(b)
  {
    if a == [] {
      assert a + b == b;
    } else {
      assert (a + b)[1..] == a[1..] + b;
      CountWhitespaceAppend(a[1..], b);
    }
  }

  /** Slugify works character by character: it distributes over concatenation. */
  lemma {:induction false} SlugifyAppend(a: string, b: string)
    ensures Slugify(a + b) == Slugify(a) + Slugify(b)
  {
    if a == [] {
      assert a + b == b;
    } else {
      assert (a + b)[1..] == a[1..] + b;
      SlugifyAppend(a[1..], b);
    }
  }

  /** A hyphen already in the input is neither alphanumeric nor whitespace, so
      it never reaches the slug: a slug fed back to Slugify loses its hyphens. */
  lemma {:induction false} SlugifyDropsHyphens(s: string)
    ensures CountHyphens(Slugify(Slugify(s))) == 0
  {
    SlugifyOfSlugText(Slugify(s));
  }

  lemma {:induction false} SlugifyOfSlugText(s: string)
    requires IsSlugText(s)
    ensures CountWhitespace(s) == 0
    ensures |Slugify(s)| + CountHyphens(s) == |s|
  {
    if s != [] {
      SlugifyOfSlugText(s[1..]);
    }
  }

  /** Lower-case alphanumeric text is its own slug. */
  lemma {:induction false} SlugifyFixesLowerAlnum(s: string)
    requires forall i :: 0 <= i < |s| ==> ('0' <= s[i] <= '9') || ('a' <= s[i] <= 'z')
    ensures Slugify(s) == s
  {
    if s != [] {
      SlugifyFixesLowerAlnum(s[1..]);
    }
  }

  /** `args[1..].join(" ")`: the words joined with single spaces. */
  function JoinWords(words: seq<string>): (r: string)
  {
    if words == [] then []
    else if |words| == 1 then words[0]
    else words[0] + " " + JoinWords(words[1..])
  }

  function SumWhitespace(words: seq<string>): nat {
    if words == [] then 0 else CountWhitespace(words[0]) + SumWhitespace(words[1..])
  }

  function SumLengths(words: seq<string>): nat {
    if words == [] then 0 else |words[0]| + SumLengths(words[1..])
  }

  /** Joining adds exactly one space between neighbouring words and nothing else:
      the joined title is as long as the words plus one per gap, and holds one
      whitespace character per gap besides the words' own. */
  lemma {:induction false} JoinWordsShape(words: seq<string>)
    requires words != []
    ensures |JoinWords(words)| == SumLengths(words) + |words| - 1
    ensures CountWhitespace(JoinWords(words)) == SumWhitespace(words) + |words| - 1
  {
    if |words| > 1 {
      JoinWordsShape(words[1..]);
      var w, rest := words[0], JoinWords(words[1..]);
      CountWhitespaceAppend(w, " ");
      CountWhitespaceAppend(w + " ", rest);
    } else {
      assert words[1..] == [];
    }
  }
}
