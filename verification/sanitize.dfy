/** The ZIP-entry sanitiser `clean` (app.py:64-69): nine path-unsafe ASCII
    characters become look-alike full-width (or typographic) characters, a
    space becomes an underscore, newlines are deleted, and the result is cut
    to its first thirty characters. */
module Sanitize {

  /** `s[:30]` keeps at most this many characters. */
  const MaxLength: nat := 30

  /** Every character `clean` replaces or deletes. */
  predicate IsReplaced(c: char) {
    || c == '/' || c == '\\' || c == ':' || c == '*' || c == '?' || c == '"'
    || c == '<' || c == '>' || c == '|' || c == ' ' || c == '\n'
  }

  /** No character of `s` is one that `clean` would touch. */
  predicate IsClean(s: string) {
    forall c :: c in s ==> !IsReplaced(c)
  }

  /** Python's `s.replace(target, replacement)` for a one-character
      `target`: every occurrence of `target` is replaced by `replacement`,
      everything else is kept in order. */
  function Replace(s: string, target: char, replacement: string): (r: string)
    ensures target !in replacement ==> target !in r
    ensures forall c :: c in r ==> c in replacement || (c in s && c != target)
    ensures |replacement| == 1 ==> |r| == |s|
    ensures |replacement| == 0 ==> |r| <= |s|
  {
    if |s| == 0 then []
    else (if s[0] == target then replacement else [s[0]]) + Replace(s[1..], target, replacement)
  }

  /** The eleven `replace` calls of app.py:66-68, in the order written.
      Every replacement text is a single character except the one for
      newline, which is empty, so the chain never lengthens a string and
      leaves no newline. (`ReplacementsAreSanitized` proves the chain equal
      to the per-character `Sanitized`.) */
  function Replacements(s: string): (r: string)
    ensures |r| <= |s|
    ensures '\n' !in r
  {
    var s1 := Replace(Replace(Replace(Replace(s,
                '/', "\U{FF0F}"), '\\', "\U{FF3C}"), ':', "\U{FF1A}"), '*', "\U{FF0A}");
    var s2 := Replace(Replace(Replace(Replace(Replace(s1,
                '?', "\U{FF1F}"), '"', "\U{201D}"), '<', "\U{FF1C}"), '>', "\U{FF1E}"), '|', "\U{FF5C}");
    Replace(Replace(s2, ' ', "_"), '\n', "")
  }

  /** What one input character turns into, read as a table. */
  function MapChar(c: char): (r: string)
    ensures |r| == (if c == '\n' then 0 else 1)
    ensures IsClean(r)
    ensures !IsReplaced(c) ==> r == [c]
  {
    match c
    case '/' => "\U{FF0F}"
    case '\\' => "\U{FF3C}"
    case ':' => "\U{FF1A}"
    case '*' => "\U{FF0A}"
    case '?' => "\U{FF1F}"
    case '"' => "\U{201D}"
    case '<' => "\U{FF1C}"
    case '>' => "\U{FF1E}"
    case '|' => "\U{FF5C}"
    case ' ' => "_"
    case '\n' => ""
    case _ => [c]
  }

  /** The per-character reading of the replacement chain: each character is
      mapped through `MapChar`, so newlines vanish and nothing else moves. */
  function Sanitized(s: string): string {
    if |s| == 0 then [] else MapChar(s[0]) + Sanitized(s[1..])
  }

  /** `s[:k]`. */
  function Take(s: string, k: nat): (r: string)
    ensures |r| == if |s| <= k then |s| else k
    ensures r <= s
  {
    if |s| <= k then s else s[..k]
  }

  /** `clean(s)` of app.py:64-69. */
  function Clean(s: string): (r: string)
    ensures |r| <= MaxLength
    ensures IsClean(r)
    ensures r == Take(Sanitized(s), MaxLength)
  {
    ReplacementsAreSanitized(s);
    SanitizedIsClean(s);
    Take(Replacements(s), MaxLength)
  }

  lemma {:induction false} ReplaceAppend(a: string, b: string, target: char, replacement: string)
    ensures Replace(a + b, target, replacement) == Replace(a, target, replacement) + Replace(b, target, replacement)
  {
    if |a| > 0 {
      assert (a + b)[1..] == a[1..] + b;
      ReplaceAppend(a[1..], b, target, replacement);
    } else {
      assert a + b == b;
    }
  }

  lemma ReplaceSingletons()
    ensures forall c: char, target: char, replacement: string ::
      Replace([c], target, replacement) == if c == target then replacement else [c]
    ensures forall target: char, replacement: string :: Replace([], target, replacement) == []
  {
    forall c: char, target: char, replacement: string
      ensures Replace([c], target, replacement) == if c == target then replacement else [c]
    {
      assert [c][1..] == [];
    }
  }

  /** One character through the whole chain is one row of `MapChar`. The
      case split and the singleton facts are not needed for soundness; they
      only keep the solver's cost down. */
  lemma ReplacementsOfChar(c: char)
    ensures Replacements([c]) == MapChar(c)
  {
    ReplaceSingletons();
    match c
    case '/' =>
    case '\\' =>
    case ':' =>
    case '*' =>
    case '?' =>
    case '"' =>
    case '<' =>
    case '>' =>
    case '|' =>
    case ' ' =>
    case '\n' =>
    case _ =>
  }

  lemma ReplacementsAppend(a: string, b: string)
    ensures Replacements(a + b) == Replacements(a) + Replacements(b)
  {
    var x, y := a, b;
    ReplaceAppend(x, y, '/', "\U{FF0F}");
    x, y := Replace(x, '/', "\U{FF0F}"), Replace(y, '/', "\U{FF0F}");
    ReplaceAppend(x, y, '\\', "\U{FF3C}");
    x, y := Replace(x, '\\', "\U{FF3C}"), Replace(y, '\\', "\U{FF3C}");
    ReplaceAppend(x, y, ':', "\U{FF1A}");
    x, y := Replace(x, ':', "\U{FF1A}"), Replace(y, ':', "\U{FF1A}");
    ReplaceAppend(x, y, '*', "\U{FF0A}");
    x, y := Replace(x, '*', "\U{FF0A}"), Replace(y, '*', "\U{FF0A}");
    ReplaceAppend(x, y, '?', "\U{FF1F}");
    x, y := Replace(x, '?', "\U{FF1F}"), Replace(y, '?', "\U{FF1F}");
    ReplaceAppend(x, y, '"', "\U{201D}");
    x, y := Replace(x, '"', "\U{201D}"), Replace(y, '"', "\U{201D}");
    ReplaceAppend(x, y, '<', "\U{FF1C}");
    x, y := Replace(x, '<', "\U{FF1C}"), Replace(y, '<', "\U{FF1C}");
    ReplaceAppend(x, y, '>', "\U{FF1E}");
    x, y := Replace(x, '>', "\U{FF1E}"), Replace(y, '>', "\U{FF1E}");
    ReplaceAppend(x, y, '|', "\U{FF5C}");
    x, y := Replace(x, '|', "\U{FF5C}"), Replace(y, '|', "\U{FF5C}");
    ReplaceAppend(x, y, ' ', "_");
    x, y := Replace(x, ' ', "_"), Replace(y, ' ', "_");
    ReplaceAppend(x, y, '\n', "");
    x, y := Replace(x, '\n', ""), Replace(y, '\n', "");
  }

  /** The chain of `replace` calls is the per-character map. */
  lemma {:induction false} ReplacementsAreSanitized(s: string)
    ensures Replacements(s) == Sanitized(s)
  {
    if |s| == 0 {
      ReplaceSingletons();
    } else {
      assert s == [s[0]] + s[1..];
      ReplacementsAppend([s[0]], s[1..]);
      ReplacementsOfChar(s[0]);
      ReplacementsAreSanitized(s[1..]);
    }
  }

  lemma {:induction false} SanitizedIsClean(s: string)
    ensures IsClean(Sanitized(s))
  {
    if |s| > 0 {
      SanitizedIsClean(s[1..]);
    }
  }

  /** Number of newline characters in `s`: the characters `clean` deletes. */
  function Newlines(s: string): nat {
    if |s| == 0 then 0 else (if s[0] == '\n' then 1 else 0) + Newlines(s[1..])
  }

  /** Only newlines change the length; every other character maps to exactly
      one character, in place. */
  lemma {:induction false} SanitizedLength(s: string)
    ensures |Sanitized(s)| == |s| - Newlines(s)
  {
    if |s| > 0 {
      SanitizedLength(s[1..]);
    }
  }

  /** Without newlines, character `i` of the result is character `i` of the
      input looked up in the table. */
  lemma {:induction false} SanitizedPointwise(s: string)
    requires '\n' !in s
    ensures |Sanitized(s)| == |s|
    ensures forall i :: 0 <= i < |s| ==> Sanitized(s)[i] == MapChar(s[i])[0]
  {
    if |s| > 0 {
      SanitizedPointwise(s[1..]);
    }
  }

  /** A string `clean` would not touch passes the per-character map unchanged. */
  lemma {:induction false} SanitizedKeepsClean(s: string)
    requires IsClean(s)
    ensures Sanitized(s) == s
  {
    if |s| > 0 {
      SanitizedKeepsClean(s[1..]);
      assert s == [s[0]] + s[1..];
    }
  }

  /** A concatenation is clean exactly when both parts are. */
  lemma CleanAppend(a: string, b: string)
    ensures IsClean(a + b) <==> IsClean(a) && IsClean(b)
  {
  }

  /** Applying `clean` twice is applying it once. */
  lemma CleanIdempotent(s: string)
    ensures Clean(Clean(s)) == Clean(s)
  {
    SanitizedKeepsClean(Clean(s));
  }

  /** `clean` returns its argument exactly when the argument is short enough
      and holds none of the characters it replaces. */
  lemma CleanFixpoint(s: string)
    ensures Clean(s) == s <==> |s| <= MaxLength && IsClean(s)
  {
    if |s| <= MaxLength && IsClean(s) {
      SanitizedKeepsClean(s);
    }
  }
}
