/** The string functions the controllers and the Mongoose setters apply:
    `toLowerCase`, `trim`, the slug rewrite `replace(/\s+/g, '-')`, the tag
    split `split(',')`, and the e-mail shape `/\S+@\S+\.\S+/`.
    Characters are treated as ASCII: only `A`-`Z` have a lower-case form and
    only the six ASCII blanks count as whitespace. */
module Text {

  /** The ASCII characters in the `\s` class: space, tab, line feed,
      vertical tab, form feed and carriage return. */
  predicate IsSpace(c: char)
  {
    c == ' ' || '\t' <= c <= '\r'
  }

  predicate IsUpper(c: char)
  {
    'A' <= c <= 'Z'
  }

  function LowerChar(c: char): char
  {
    if IsUpper(c) then (c as int + 32) as char else c
  }

  predicate NoUpper(s: string)
  {
    forall i :: 0 <= i < |s| ==> !IsUpper(s[i])
  }

  predicate NoSpace(s: string)
  {
    forall i :: 0 <= i < |s| ==> !IsSpace(s[i])
  }

  predicate AllSpace(s: string)
  {
    forall i :: 0 <= i < |s| ==> IsSpace(s[i])
  }

  /** `s.toLowerCase()`. */
  function Lower(s: string): (r: string)
    ensures |r| == |s|
    ensures forall i :: 0 <= i < |s| ==> r[i] == LowerChar(s[i])
  {
    seq(|s|, i requires 0 <= i < |s| => LowerChar(s[i]))
  }

  /** Lower-casing leaves no upper-case letter, keeps every blank a blank and
      every non-blank a non-blank, and changes nothing in a string that has
      no upper-case letter. */
  lemma LowerFacts(s: string)
    ensures NoUpper(Lower(s))
    ensures NoSpace(s) ==> NoSpace(Lower(s))
    ensures Trimmed(s) ==> Trimmed(Lower(s))
    ensures NoUpper(s) ==> Lower(s) == s
  {
  }

  // ---------------------------------------------------------------------
  // trim

  /** The number of blanks at the front of `s`. */
  function LeadingSpaces(s: string): (k: nat)
    ensures k <= |s|
    ensures forall j :: 0 <= j < k ==> IsSpace(s[j])
    ensures k < |s| ==> !IsSpace(s[k])
  {
    if s == [] || !IsSpace(s[0]) then 0
    else 1 + LeadingSpaces(s[1..])
  }

  /** The number of blanks at the end of `s`. */
  function TrailingSpaces(s: string): (k: nat)
    ensures k <= |s|
    ensures forall j :: |s| - k <= j < |s| ==> IsSpace(s[j])
    ensures k < |s| ==> !IsSpace(s[|s| - 1 - k])
  {
    if s == [] || !IsSpace(s[|s| - 1]) then 0
    else 1 + TrailingSpaces(s[..|s| - 1])
  }

  /** The count of leading blanks is determined by the blank run it spans. */
  lemma LeadingSpacesUnique(s: string, k: nat)
    requires k <= |s|
    requires forall j :: 0 <= j < k ==> IsSpace(s[j])
    requires k < |s| ==> !IsSpace(s[k])
    ensures LeadingSpaces(s) == k
  {
  }

  /** The string has no blank at either end. */
  predicate Trimmed(s: string)
  {
    s == [] || (!IsSpace(s[0]) && !IsSpace(s[|s| - 1]))
  }

  /** `s.trim()`: the blanks at both ends are removed. */
  function Trim(s: string): string
  {
    var a := LeadingSpaces(s);
    var t := s[a..];
    t[..|t| - TrailingSpaces(t)]
  }

  /** What trimming promises: the result has no blank at either end, it is
      an infix of `s` and everything cut away is blank, and an already
      trimmed string is returned as it is. */
  lemma TrimSpec(s: string)
    ensures Trimmed(Trim(s))
    ensures exists a | 0 <= a <= |s| - |Trim(s)| ::
              Trim(s) == s[a..a + |Trim(s)|] && AllSpace(s[..a]) && AllSpace(s[a + |Trim(s)|..])
    ensures Trimmed(s) ==> Trim(s) == s
  {
    var a := LeadingSpaces(s);
    var t := s[a..];
    var b := TrailingSpaces(t);
    var r := t[..|t| - b];
    assert r == Trim(s);
    assert r == s[a..a + |r|];
    assert s[a + |r|..] == t[|t| - b..];
    assert AllSpace(s[..a]);
    assert AllSpace(t[|t| - b..]);
    if r != [] {
      assert r[0] == s[a];
      assert r[|r| - 1] == t[|t| - 1 - b];
    }
  }

  /** Trimming twice is trimming once. */
  lemma TrimIdempotent(s: string)
    ensures Trim(Trim(s)) == Trim(s)
  {
    TrimSpec(s);
    TrimSpec(Trim(s));
  }

  // ---------------------------------------------------------------------
  // createSlug

  /** `s.replace(/\s+/g, '-')`: every maximal run of blanks becomes a
      single hyphen, every other character is kept. */
  function Hyphenate(s: string): (r: string)
    ensures |r| <= |s|
    ensures NoSpace(r)
    ensures NoUpper(s) ==> NoUpper(r)
    ensures NoSpace(s) ==> r == s
    decreases |s|
  {
    if s == [] then []
    else if IsSpace(s[0]) then
      var k := LeadingSpaces(s);
      "-" + Hyphenate(s[k..])
    else
      [s[0]] + Hyphenate(s[1..])
  }

  /** `createSlug(name)` of the product and category controllers:
      `name.toLowerCase().replace(/\s+/g, '-')`. */
  function CreateSlug(name: string): string
  {
    Hyphenate(Lower(name))
  }

  /** A slug has no blank and no upper-case letter, and is never longer than
      the name it was made from. */
  lemma SlugShape(name: string)
    ensures NoSpace(CreateSlug(name))
    ensures NoUpper(CreateSlug(name))
    ensures |CreateSlug(name)| <= |name|
  {
    LowerFacts(name);
  }

  /** Slugging a slug changes nothing: `createSlug` is idempotent. */
  lemma SlugIdempotent(name: string)
    ensures CreateSlug(CreateSlug(name)) == CreateSlug(name)
  {
    var slug := CreateSlug(name);
    SlugShape(name);
    LowerFacts(slug);
  }

  /** A name with no blank gets the lower-cased name as its slug. */
  lemma SlugOfBlankFreeName(name: string)
    requires NoSpace(name)
    ensures CreateSlug(name) == Lower(name)
  {
    LowerFacts(name);
  }

  /** The leading blank run of `x + y` is that of `x` when `x` ends in a
      non-blank. */
  lemma LeadingSpacesOfConcat(x: string, y: string)
    requires x != [] && !IsSpace(x[|x| - 1])
    ensures LeadingSpaces(x + y) == LeadingSpaces(x) < |x|
  {
    var k := LeadingSpaces(x);
    LeadingSpacesUnique(x + y, k);
  }

  /** Hyphenation works run by run: a maximal blank run `w` between `a`
      (ending in a non-blank) and `b` (starting with a non-blank) becomes
      exactly one hyphen, and the two sides are rewritten independently. */
  lemma {:induction false} HyphenateRun(a: string, w: string, b: string)
    requires a == [] || !IsSpace(a[|a| - 1])
    requires w != [] && AllSpace(w)
    requires b == [] || !IsSpace(b[0])
    ensures Hyphenate(a + w + b) == Hyphenate(a) + "-" + Hyphenate(b)
    decreases |a|, 1
  {
    if a == [] {
      assert a + w + b == w + b;
      HyphenateRunAlone(w, b);
      assert Hyphenate(a) + "-" + Hyphenate(b) == "-" + Hyphenate(b);
    } else {
      HyphenateRunAfter(a, w, b);
    }
  }

  /** The inductive step of `HyphenateRun`: rewrite the first token of `a`
      and recurse on the rest. */
  lemma {:induction false} HyphenateRunAfter(a: string, w: string, b: string)
    requires a != [] && !IsSpace(a[|a| - 1])
    requires w != [] && AllSpace(w)
    requires b == [] || !IsSpace(b[0])
    ensures Hyphenate(a + w + b) == Hyphenate(a) + "-" + Hyphenate(b)
    decreases |a|, 0
  {
    var k, head := FirstToken(a, w + b);
    var a' := a[k..];
    assert a' == [] || a'[|a'| - 1] == a[|a| - 1];
    HyphenateRun(a', w, b);
    Associate(a', w, b);
    Associate(a, w, b);
    Regroup(head, Hyphenate(a'), "-", Hyphenate(b));
  }

  /** The first token of `a + y`, for `a` ending in a non-blank, lies in `a`:
      its length `k` and its rewriting `head`. */
  lemma FirstToken(a: string, y: string) returns (k: nat, head: string)
    requires a != [] && !IsSpace(a[|a| - 1])
    ensures 0 < k <= |a|
    ensures Hyphenate(a) == head + Hyphenate(a[k..])
    ensures Hyphenate(a + y) == head + Hyphenate(a[k..] + y)
  {
    var s := a + y;
    assert s[0] == a[0];
    if IsSpace(a[0]) {
      k, head := LeadingSpaces(a), "-";
      LeadingSpacesOfConcat(a, y);
    } else {
      k, head := 1, [a[0]];
    }
    HyphenateHead(a, k, head);
    HyphenateHead(s, k, head);
    DropOfConcat(a, y, k);
  }

  lemma Associate(x: string, y: string, z: string)
    ensures x + (y + z) == x + y + z
  {
  }

  lemma Regroup(h: string, x: string, m: string, y: string)
    ensures h + (x + m + y) == (h + x) + m + y
  {
  }

  lemma DropOfConcat(x: string, y: string, k: nat)
    requires k <= |x|
    ensures (x + y)[k..] == x[k..] + y
  {
  }

  /** The first step of `Hyphenate`: a leading blank run of length `k`
      becomes a hyphen, a leading non-blank is kept. */
  lemma HyphenateHead(s: string, k: nat, head: string)
    requires s != []
    requires IsSpace(s[0]) ==> k == LeadingSpaces(s) && head == "-"
    requires !IsSpace(s[0]) ==> k == 1 && head == [s[0]]
    ensures k <= |s|
    ensures Hyphenate(s) == head + Hyphenate(s[k..])
  {
  }

  /** A blank run at the front, followed by a non-blank, is one hyphen. */
  lemma HyphenateRunAlone(w: string, b: string)
    requires w != [] && AllSpace(w)
    requires b == [] || !IsSpace(b[0])
    ensures Hyphenate(w + b) == "-" + Hyphenate(b)
  {
    var s := w + b;
    LeadingSpacesUnique(s, |w|);
    assert s[|w|..] == b;
    HyphenateHead(s, |w|, "-");
  }

  /** Slugging is word by word: a blank run between two words becomes one
      hyphen. */
  lemma SlugJoinsWords(a: string, w: string, b: string)
    requires a == [] || !IsSpace(a[|a| - 1])
    requires w != [] && AllSpace(w)
    requires b == [] || !IsSpace(b[0])
    ensures CreateSlug(a + w + b) == CreateSlug(a) + "-" + CreateSlug(b)
  {
    var la, lw, lb := Lower(a), Lower(w), Lower(b);
    assert Lower(a + w + b) == la + lw + lb;
    assert AllSpace(lw);
    assert la == [] || la[|la| - 1] == LowerChar(a[|a| - 1]);
    assert lb == [] || lb[0] == LowerChar(b[0]);
    HyphenateRun(la, lw, lb);
  }

  // ---------------------------------------------------------------------
  // split(',')

  /** `s.split(sep)` for a one-character separator: the pieces between the
      separators, in order; the empty string gives one empty piece. */
  function Split(s: string, sep: char): (parts: seq<string>)
    ensures |parts| >= 1
    ensures forall i :: 0 <= i < |parts| ==> sep !in parts[i]
  {
    if s == [] then [[]]
    else
      var rest := Split(s[1..], sep);
      if s[0] == sep then [[]] + rest
      else [[s[0]] + rest[0]] + rest[1..]
  }

  /** `parts.join(sep)`. */
  function Join(parts: seq<string>, sep: char): string
  {
    if parts == [] then []
    else if |parts| == 1 then parts[0]
    else parts[0] + [sep] + Join(parts[1..], sep)
  }

  /** Splitting loses nothing: joining the pieces gives the string back. */
  lemma {:induction false} JoinSplit(s: string, sep: char)
    ensures Join(Split(s, sep), sep) == s
  {
    if s != [] {
      var rest := Split(s[1..], sep);
      JoinSplit(s[1..], sep);
      if s[0] != sep {
        if |rest| == 1 {
          assert Join(rest, sep) == rest[0];
        } else {
          assert Join(rest, sep) == rest[0] + [sep] + Join(rest[1..], sep);
          assert ([s[0]] + rest[0]) + [sep] + Join(rest[1..], sep) == [s[0]] + Join(rest, sep);
        }
        assert s == [s[0]] + s[1..];
      } else {
        assert s == [sep] + s[1..];
      }
    }
  }

  /** A piece free of the separator followed by the separator splits off as
      the first piece. */
  lemma {:induction false} SplitFirstPiece(x: string, sep: char, y: string)
    requires sep !in x
    ensures Split(x + [sep] + y, sep) == [x] + Split(y, sep)
    decreases |x|
  {
    if x == [] {
      assert [sep] + y == x + [sep] + y;
      assert ([sep] + y)[1..] == y;
    } else {
      assert (x + [sep] + y)[1..] == x[1..] + [sep] + y;
      SplitFirstPiece(x[1..], sep, y);
      assert [x[0]] + x[1..] == x;
    }
  }

  /** A string free of the separator splits into itself. */
  lemma {:induction false} SplitNoSeparator(x: string, sep: char)
    requires sep !in x
    ensures Split(x, sep) == [x]
    decreases |x|
  {
    if x != [] {
      SplitNoSeparator(x[1..], sep);
      assert [x[0]] + x[1..] == x;
    }
  }

  /** Joining pieces free of the separator and splitting again gives the
      pieces back. */
  lemma {:induction false} SplitJoin(parts: seq<string>, sep: char)
    requires parts != []
    requires forall i :: 0 <= i < |parts| ==> sep !in parts[i]
    ensures Split(Join(parts, sep), sep) == parts
  {
    if |parts| == 1 {
      SplitNoSeparator(parts[0], sep);
    } else {
      SplitJoin(parts[1..], sep);
      SplitFirstPiece(parts[0], sep, Join(parts[1..], sep));
      assert [parts[0]] + parts[1..] == parts;
    }
  }

  // ---------------------------------------------------------------------
  // e-mail shape

  /** `/\S+@\S+\.\S+/.test(s)`: somewhere in `s` a non-blank precedes an
      `@`, a non-empty blank-free stretch follows it up to a `.`, and a
      non-blank follows the dot. */
  predicate EmailShaped(s: string)
  {
    exists i, j | 0 < i < j < |s| - 1 ::
      s[i] == '@' && s[j] == '.' && i + 1 < j
      && !IsSpace(s[i - 1]) && NoSpace(s[i + 1..j]) && !IsSpace(s[j + 1])
  }
}
