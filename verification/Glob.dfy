/**
 glob2regex (lib/passes/support/Util.h): a glob becomes a POSIX extended regular expression. Globs and expressions
 have their own parsers and their own languages; the translation is proved to preserve the language.
 */
module Glob {
  import opened Wrappers

  // ----- Globs -----

  datatype Item = AnyChar | AnyString | Literal(c: char) | Choice(alts: Alternatives)

  datatype Glob = Empty | Then(item: Item, rest: Glob)

  datatype Alternatives = Last(glob: Glob) | Or(glob: Glob, others: Alternatives)

  const NUL := 0 as char

  /** Up to the end of the glob, or inside braces up to the comma or brace that ends the alternative. */
  function ParseGlob(s: string, inBraces: bool): (r: Option<(Glob, string)>)
    ensures r.Some? ==> |r.value.1| <= |s|
    ensures r.Some? ==> r.value.1 == "" || (inBraces && (r.value.1[0] == ',' || r.value.1[0] == '}'))
    decreases |s|, 0
  {
    if s == "" || (inBraces && (s[0] == ',' || s[0] == '}')) then Some((Empty, s))
    else if s[0] == '[' || s[0] == NUL then None
    else if s[0] == '{' then
      var choice := ParseAlternatives(s[1..]);
      if choice.None? then None else Prepend(Choice(choice.value.0), ParseGlob(choice.value.1, inBraces))
    else if s[0] == '?' then Prepend(AnyChar, ParseGlob(s[1..], inBraces))
    else if s[0] == '*' then Prepend(AnyString, ParseGlob(s[1..], inBraces))
    else Prepend(Literal(s[0]), ParseGlob(s[1..], inBraces))
  }

  function Prepend(item: Item, parsed: Option<(Glob, string)>): (r: Option<(Glob, string)>) {
    if parsed.None? then None else Some((Then(item, parsed.value.0), parsed.value.1))
  }

  /** Alternatives behind an opening brace, with the text behind the closing one. */
  function ParseAlternatives(s: string): (r: Option<(Alternatives, string)>)
    ensures r.Some? ==> |r.value.1| < |s|
    decreases |s|, 1
  {
    var first := ParseGlob(s, true);
    if first.None? || first.value.0.Empty? || first.value.1 == "" then None
    else if first.value.1[0] == '}' then Some((Last(first.value.0), first.value.1[1..]))
    else
      var others := ParseAlternatives(first.value.1[1..]);
      if others.None? then None else Some((Or(first.value.0, others.value.0), others.value.1))
  }

  function GlobOf(s: string): Option<Glob> {
    var parsed := ParseGlob(s, false);
    if parsed.None? then None else Some(parsed.value.0)
  }

  ghost predicate InGlob(g: Glob, w: string)
    decreases g, 1
  {
    match g
    case Empty => w == ""
    case Then(_, _) => exists k :: 0 <= k <= |w| && CutsAt(g, w, k)
  }

  /** The first item takes the first k characters. */
  ghost predicate CutsAt(g: Glob, w: string, k: nat)
    requires g.Then? && k <= |w|
    decreases g, 0
  {
    InItem(g.item, w[..k]) && InGlob(g.rest, w[k..])
  }

  ghost predicate InItem(item: Item, w: string)
    decreases item, 1
  {
    match item
    case AnyChar => |w| == 1
    case AnyString => true
    case Literal(c) => w == [c]
    case Choice(alts) => InAlternatives(alts, w)
  }

  ghost predicate InAlternatives(alts: Alternatives, w: string)
    decreases alts, 1
  {
    match alts
    case Last(glob) => InGlob(glob, w)
    case Or(glob, others) => InGlob(glob, w) || InAlternatives(others, w)
  }

  // ----- Extended regular expressions (section 9.4 of IEEE Std 1003.1-2017, Base Definitions) -----

  datatype Atom = Any | Char(c: char) | LineStart | LineEnd | Group(expr: Ere)

  datatype Piece = Single(atom: Atom) | Star(atom: Atom) | Plus(atom: Atom) | Opt(atom: Atom)

  datatype Branch = End | Seq(piece: Piece, rest: Branch)

  datatype Ere = One(branch: Branch) | Alt(branch: Branch, others: Ere)

  /** Characters with a special meaning outside brackets; only these may follow a backslash. */
  predicate IsSpecial(c: char) {
    c in "^.[$()|*+?{\\"
  }

  predicate IsDuplication(c: char) {
    c == '*' || c == '+' || c == '?' || c == '{'
  }

  /**
   A branch up to the end of the text, a bar, or inside a group the closing parenthesis. What the standard leaves
   undefined is None, and so are bracket expressions and intervals.
   */
  function ParseBranch(t: string, inGroup: bool): (r: Option<(Branch, string)>)
    ensures r.Some? ==> |r.value.1| <= |t|
    decreases |t|, 0
  {
    if t == "" || t[0] == '|' || (inGroup && t[0] == ')') then Some((End, t))
    else if t[0] == '\\' then
      if |t| < 2 || !IsSpecial(t[1]) then None else ParseDuplication(Char(t[1]), t[2..], inGroup)
    else if t[0] == '(' then
      var group := ParseGroup(t[1..]);
      if group.None? then None else ParseDuplication(Group(group.value.0), group.value.1, inGroup)
    else if t[0] == '.' then ParseDuplication(Any, t[1..], inGroup)
    else if t[0] == '^' then ParseAnchor(LineStart, t[1..], inGroup)
    else if t[0] == '$' then ParseAnchor(LineEnd, t[1..], inGroup)
    else if t[0] == '[' || IsDuplication(t[0]) then None
    else ParseDuplication(Char(t[0]), t[1..], inGroup)
  }

  function Follow(piece: Piece, parsed: Option<(Branch, string)>): (r: Option<(Branch, string)>) {
    if parsed.None? then None else Some((Seq(piece, parsed.value.0), parsed.value.1))
  }

  /** An anchor cannot be repeated. */
  function ParseAnchor(atom: Atom, t: string, inGroup: bool): (r: Option<(Branch, string)>)
    ensures r.Some? ==> |r.value.1| <= |t|
    decreases |t|, 1
  {
    if t != "" && IsDuplication(t[0]) then None else Follow(Single(atom), ParseBranch(t, inGroup))
  }

  function ParseDuplication(atom: Atom, t: string, inGroup: bool): (r: Option<(Branch, string)>)
    ensures r.Some? ==> |r.value.1| <= |t|
    decreases |t|, 1
  {
    if t == "" || !IsDuplication(t[0]) then Follow(Single(atom), ParseBranch(t, inGroup))
    else if t[0] == '*' then Follow(Star(atom), ParseBranch(t[1..], inGroup))
    else if t[0] == '+' then Follow(Plus(atom), ParseBranch(t[1..], inGroup))
    else if t[0] == '?' then Follow(Opt(atom), ParseBranch(t[1..], inGroup))
    else None
  }

  /** The expression behind an opening parenthesis, with the text behind the closing one. */
  function ParseGroup(t: string): (r: Option<(Ere, string)>)
    ensures r.Some? ==> |r.value.1| < |t|
    decreases |t|, 2
  {
    var first := ParseBranch(t, true);
    if first.None? || first.value.0.End? || first.value.1 == "" then None
    else if first.value.1[0] == '|' then
      var others := ParseGroup(first.value.1[1..]);
      if others.None? then None else Some((Alt(first.value.0, others.value.0), others.value.1))
    else Some((One(first.value.0), first.value.1[1..]))
  }

  function ParseEre(t: string): Option<Ere>
    decreases |t|
  {
    var first := ParseBranch(t, false);
    if first.None? || first.value.0.End? then None
    else if first.value.1 == "" then Some(One(first.value.0))
    else
      var others := ParseEre(first.value.1[1..]);
      if others.None? then None else Some(Alt(first.value.0, others.value))
  }

  /** The atom matches the characters of `w` from i to j. */
  ghost predicate AtomMatches(a: Atom, w: string, i: nat, j: nat)
    requires i <= j <= |w|
    decreases a, 0
  {
    match a
    case Any => j == i + 1
    case Char(c) => j == i + 1 && w[i] == c
    case LineStart => i == j == 0
    case LineEnd => i == j == |w|
    case Group(expr) => EreMatches(expr, w, i, j)
  }

  ghost predicate Repeats(a: Atom, w: string, i: nat, j: nat)
    requires i <= j <= |w|
    decreases a, j - i + 1
  {
    i == j || exists k: nat :: i < k <= j && AtomMatches(a, w, i, k) && Repeats(a, w, k, j)
  }

  ghost predicate PieceMatches(p: Piece, w: string, i: nat, j: nat)
    requires i <= j <= |w|
    decreases p, 0
  {
    match p
    case Single(a) => AtomMatches(a, w, i, j)
    case Star(a) => Repeats(a, w, i, j)
    case Plus(a) => exists k: nat :: i <= k <= j && AtomMatches(a, w, i, k) && Repeats(a, w, k, j)
    case Opt(a) => i == j || AtomMatches(a, w, i, j)
  }

  ghost predicate BranchMatches(b: Branch, w: string, i: nat, j: nat)
    requires i <= j <= |w|
    decreases b, 1
  {
    match b
    case End => i == j
    case Seq(_, _) => exists k: nat :: i <= k <= j && SplitsAt(b, w, i, k, j)
  }

  /** The first piece of the branch matches up to k, and what follows it from there. */
  ghost predicate SplitsAt(b: Branch, w: string, i: nat, k: nat, j: nat)
    requires b.Seq? && i <= k <= j <= |w|
    decreases b, 0
  {
    PieceMatches(b.piece, w, i, k) && BranchMatches(b.rest, w, k, j)
  }

  ghost predicate EreMatches(e: Ere, w: string, i: nat, j: nat)
    requires i <= j <= |w|
    decreases e, 0
  {
    match e
    case One(branch) => BranchMatches(branch, w, i, j)
    case Alt(branch, others) => BranchMatches(branch, w, i, j) || EreMatches(others, w, i, j)
  }

  /** Regex::match: the expression matches somewhere in the string. */
  ghost predicate Found(e: Ere, w: string) {
    exists i: nat, j: nat :: i <= j <= |w| && EreMatches(e, w, i, j)
  }

  // ----- The translation -----

  /** Characters that strchr finds in its list; it also finds the terminating zero. */
  predicate IsEscaped(c: char) {
    c in "()^$|*+.\\" || c == NUL
  }

  /** What one character of the glob adds to the expression when `depth` braces are open. */
  function EmitChar(c: char, depth: nat): string {
    match c
    case '?' => "."
    case '*' => ".*"
    case '{' => "("
    case '}' => if depth > 0 then ")" else "}"
    case ',' => if depth > 0 then "|" else ","
    case _ => if IsEscaped(c) then ['\\', c] else [c]
  }

  function DepthAfter(c: char, depth: nat): nat {
    if c == '{' then depth + 1 else if c == '}' && depth > 0 then depth - 1 else depth
  }

  function Emit(s: string, depth: nat): string {
    if s == "" then "" else EmitChar(s[0], depth) + Emit(s[1..], DepthAfter(s[0], depth))
  }

  function Regex(s: string): string {
    "^" + Emit(s, 0) + "$"
  }

  /** The pieces a glob stands for, in front of `k`. */
  function Translate(g: Glob, k: Branch): Branch {
    match g
    case Empty => k
    case Then(item, rest) => Seq(TranslateItem(item), Translate(rest, k))
  }

  function TranslateItem(item: Item): Piece {
    match item
    case AnyChar => Single(Any)
    case AnyString => Star(Any)
    case Literal(c) => Single(Char(c))
    case Choice(alts) => Single(Group(TranslateAlternatives(alts)))
  }

  function TranslateAlternatives(alts: Alternatives): Ere {
    match alts
    case Last(glob) => One(Translate(glob, End))
    case Or(glob, others) => Alt(Translate(glob, End), TranslateAlternatives(others))
  }

  // ----- The expression parses as the translation of the glob -----

  /** The text emitted from here on, with the final anchor. */
  function Rest(s: string, depth: nat): string {
    Emit(s, depth) + "$"
  }

  lemma RestStep(s: string, depth: nat)
    requires s != ""
    ensures Rest(s, depth) == EmitChar(s[0], depth) + Rest(s[1..], DepthAfter(s[0], depth))
  {
  }

  /** No emitted text starts with a repetition, so what stands before it is not repeated. */
  lemma RestStart(s: string, depth: nat)
    ensures Rest(s, depth) != "" && !IsDuplication(Rest(s, depth)[0])
  {
    if s != "" {
      RestStep(s, depth);
      assert Rest(s, depth)[0] == EmitChar(s[0], depth)[0];
    }
  }

  function Extend(g: Glob, parsed: Option<(Branch, string)>): Option<(Branch, string)> {
    if parsed.None? then None else Some((Translate(g, parsed.value.0), parsed.value.1))
  }

  lemma ExtendPrepends(item: Item, parsed: Option<(Glob, string)>, depth: nat)
    requires parsed.Some?
    ensures Prepend(item, parsed).Some?
    ensures var (g, after) := parsed.value;
            Extend(Prepend(item, parsed).value.0, ParseBranch(Rest(after, depth), depth > 0))
            == Follow(TranslateItem(item), Extend(g, ParseBranch(Rest(after, depth), depth > 0)))
  {
  }

  /** The expression parser reads the emitted text just as the glob parser reads the glob. */
  lemma {:induction false} ParsersAgree(s: string, depth: nat)
    ensures var glob := ParseGlob(s, depth > 0);
            ParseBranch(Rest(s, depth), depth > 0)
            == if glob.None? then None else Extend(glob.value.0, ParseBranch(Rest(glob.value.1, depth), depth > 0))
    decreases |s|, 1
  {
    if s == "" || (depth > 0 && (s[0] == ',' || s[0] == '}')) {
    } else {
      var c, t := s[0], Rest(s, depth);
      RestStep(s, depth);
      if c == '{' {
        ChoiceAgrees(s, depth);
      } else if c == '[' || c == NUL {
        assert t[..|EmitChar(c, depth)|] == EmitChar(c, depth);
        assert c == NUL ==> t[1] == NUL;
      } else {
        ParsersAgree(s[1..], depth);
        CharAgrees(s, depth);
        var item := if c == '?' then AnyChar else if c == '*' then AnyString else Literal(c);
        assert ParseGlob(s, depth > 0) == Prepend(item, ParseGlob(s[1..], depth > 0));
        if ParseGlob(s[1..], depth > 0).Some? {
          ExtendPrepends(item, ParseGlob(s[1..], depth > 0), depth);
        }
      }
    }
  }

  lemma PlainAtom(c: char, rest: string, inGroup: bool)
    requires rest != "" && !IsDuplication(rest[0])
    requires !IsSpecial(c) && c != '{' && c != '|' && !(inGroup && c == ')')
    ensures ParseBranch([c] + rest, inGroup) == Follow(Single(Char(c)), ParseBranch(rest, inGroup))
  {
    assert ([c] + rest)[1..] == rest;
  }

  lemma EscapedAtom(c: char, rest: string, inGroup: bool)
    requires rest != "" && !IsDuplication(rest[0]) && IsSpecial(c)
    ensures ParseBranch(['\\', c] + rest, inGroup) == Follow(Single(Char(c)), ParseBranch(rest, inGroup))
  {
    assert (['\\', c] + rest)[2..] == rest;
  }

  lemma DotAtom(rest: string, inGroup: bool)
    requires rest != ""
    ensures !IsDuplication(rest[0]) ==> ParseBranch("." + rest, inGroup) == Follow(Single(Any), ParseBranch(rest, inGroup))
    ensures ParseBranch(".*" + rest, inGroup) == Follow(Star(Any), ParseBranch(rest, inGroup))
  {
    assert ("." + rest)[1..] == rest;
    assert (".*" + rest)[1..] == "*" + rest && ("*" + rest)[1..] == rest;
  }

  lemma GroupAtom(t: string, inGroup: bool)
    ensures ParseBranch("(" + t, inGroup)
         == if ParseGroup(t).None? then None
            else ParseDuplication(Group(ParseGroup(t).value.0), ParseGroup(t).value.1, inGroup)
  {
    assert ("(" + t)[1..] == t;
  }

  /** One character that is not a brace, comma inside braces, bracket or zero. */
  lemma CharAgrees(s: string, depth: nat)
    requires s != "" && s[0] != '{' && s[0] != '[' && s[0] != NUL && !(depth > 0 && (s[0] == ',' || s[0] == '}'))
    ensures ParseBranch(Rest(s, depth), depth > 0)
         == Follow(if s[0] == '?' then Single(Any) else if s[0] == '*' then Star(Any) else Single(Char(s[0])),
                   ParseBranch(Rest(s[1..], depth), depth > 0))
  {
    var c, rest := s[0], Rest(s[1..], depth);
    RestStep(s, depth);
    RestStart(s[1..], depth);
    if c == '*' || c == '?' {
      DotAtom(rest, depth > 0);
    } else if IsEscaped(c) {
      EscapedAtom(c, rest, depth > 0);
    } else {
      PlainAtom(c, rest, depth > 0);
    }
  }

  /** A group of alternatives is one piece of the branch. */
  lemma ChoiceFollows(s: string, depth: nat, alts: Alternatives, after: string)
    requires s != "" && s[0] == '{'
    requires ParseGroup(Rest(s[1..], depth + 1)) == Some((TranslateAlternatives(alts), Rest(after, depth)))
    ensures ParseBranch(Rest(s, depth), depth > 0)
         == Follow(TranslateItem(Choice(alts)), ParseBranch(Rest(after, depth), depth > 0))
  {
    RestStep(s, depth);
    GroupAtom(Rest(s[1..], depth + 1), depth > 0);
    RestStart(after, depth);
  }

  lemma {:induction false} ChoiceAgrees(s: string, depth: nat)
    requires s != "" && s[0] == '{'
    ensures var glob := ParseGlob(s, depth > 0);
            ParseBranch(Rest(s, depth), depth > 0)
            == if glob.None? then None else Extend(glob.value.0, ParseBranch(Rest(glob.value.1, depth), depth > 0))
    decreases |s|, 0
  {
    AlternativesAgree(s[1..], depth + 1);
    var choice := ParseAlternatives(s[1..]);
    if choice.None? {
      RestStep(s, depth);
      GroupAtom(Rest(s[1..], depth + 1), depth > 0);
    } else {
      var (alts, after) := choice.value;
      ParsersAgree(after, depth);
      ChoiceFollows(s, depth, alts, after);
      assert ParseGlob(s, depth > 0) == Prepend(Choice(alts), ParseGlob(after, depth > 0));
      if ParseGlob(after, depth > 0).Some? {
        ExtendPrepends(Choice(alts), ParseGlob(after, depth > 0), depth);
      }
    }
  }

  lemma {:induction false} AlternativesAgree(s: string, depth: nat)
    requires depth > 0
    ensures var alts := ParseAlternatives(s);
            ParseGroup(Rest(s, depth))
            == if alts.None? then None else Some((TranslateAlternatives(alts.value.0), Rest(alts.value.1, depth - 1)))
    decreases |s|, 2
  {
    ParsersAgree(s, depth);
    var first := ParseGlob(s, true);
    if first.Some? {
      var after := first.value.1;
      if after == "" {
        UnclosedGroup(first.value.0);
      } else {
        RestStep(after, depth);
        var t := Rest(after, depth);
        assert t == [t[0]] + Rest(after[1..], DepthAfter(after[0], depth));
        assert t[1..] == Rest(after[1..], DepthAfter(after[0], depth));
        if after[0] == ',' {
          AlternativesAgree(after[1..], depth);
        }
      }
    }
  }

  /** With a brace still open at the end only the final anchor is left, and the group is not closed. */
  lemma UnclosedGroup(g: Glob)
    ensures ParseBranch("$", true) == Some((Seq(Single(LineEnd), End), ""))
    ensures Rest("", 1) == "$"
  {
    assert "$"[1..] == "";
  }

  // ----- The languages are the same -----

  /** A branch that starts with a glob's pieces matches a string of the glob and then the rest. */
  lemma {:induction false} TranslateMatches(g: Glob, k: Branch, w: string, i: nat, j: nat)
    requires i <= j <= |w|
    ensures BranchMatches(Translate(g, k), w, i, j)
       <==> exists m: nat :: i <= m <= j && InGlob(g, w[i..m]) && BranchMatches(k, w, m, j)
    decreases g, 1
  {
    match g
    case Empty =>
      forall m: nat | i <= m <= j ensures InGlob(g, w[i..m]) <==> m == i {
        assert |w[i..m]| == m - i;
      }
      assert BranchMatches(k, w, i, j) ==> InGlob(g, w[i..i]);
    case Then(item, rest) =>
      var b := Seq(TranslateItem(item), Translate(rest, k));
      assert Translate(g, k) == b;
      if BranchMatches(b, w, i, j) {
        var l := SplitPoint(b, w, i, j);
        ItemMatches(item, w, i, l);
        TranslateMatches(rest, k, w, l, j);
        var m: nat :| l <= m <= j && InGlob(rest, w[l..m]) && BranchMatches(k, w, m, j);
        ThenSplits(g, w, i, l, m);
      }
      if m: nat :| i <= m <= j && InGlob(g, w[i..m]) && BranchMatches(k, w, m, j) {
        var l := GlobSplitPoint(g, w, i, m);
        ItemMatches(item, w, i, l);
        TranslateMatches(rest, k, w, l, j);
        assert SplitsAt(b, w, i, l, j);
      }
  }

  lemma SplitPoint(b: Branch, w: string, i: nat, j: nat) returns (l: nat)
    requires b.Seq? && i <= j <= |w| && BranchMatches(b, w, i, j)
    ensures i <= l <= j && PieceMatches(b.piece, w, i, l) && BranchMatches(b.rest, w, l, j)
  {
    l :| i <= l <= j && SplitsAt(b, w, i, l, j);
  }

  lemma GlobSplitPoint(g: Glob, w: string, i: nat, m: nat) returns (l: nat)
    requires g.Then? && i <= m <= |w| && InGlob(g, w[i..m])
    ensures i <= l <= m && InItem(g.item, w[i..l]) && InGlob(g.rest, w[l..m])
  {
    var n :| 0 <= n <= m - i && CutsAt(g, w[i..m], n);
    l := i + n;
    SliceOfSlice(w, i, l, m);
  }

  lemma ThenSplits(g: Glob, w: string, i: nat, l: nat, m: nat)
    requires g.Then? && i <= l <= m <= |w| && InItem(g.item, w[i..l]) && InGlob(g.rest, w[l..m])
    ensures InGlob(g, w[i..m])
  {
    SliceOfSlice(w, i, l, m);
    assert CutsAt(g, w[i..m], l - i);
  }

  lemma SliceOfSlice(w: string, i: nat, l: nat, m: nat)
    requires i <= l <= m <= |w|
    ensures w[i..m][..l - i] == w[i..l] && w[i..m][l - i..] == w[l..m]
  {
  }

  lemma {:induction false} ItemMatches(item: Item, w: string, i: nat, j: nat)
    requires i <= j <= |w|
    ensures PieceMatches(TranslateItem(item), w, i, j) <==> InItem(item, w[i..j])
    decreases item, 1
  {
    assert |w[i..j]| == j - i;
    match item
    case AnyChar =>
    case AnyString => AnyRepeats(w, i, j);
    case Literal(c) => assert j == i + 1 ==> w[i..j] == [w[i]];
    case Choice(alts) => AlternativesMatch(alts, w, i, j);
  }

  lemma {:induction false} AnyRepeats(w: string, i: nat, j: nat)
    requires i <= j <= |w|
    ensures Repeats(Any, w, i, j)
    decreases j - i
  {
    if i < j {
      AnyRepeats(w, i + 1, j);
      assert AtomMatches(Any, w, i, i + 1);
    }
  }

  lemma {:induction false} AlternativesMatch(alts: Alternatives, w: string, i: nat, j: nat)
    requires i <= j <= |w|
    ensures EreMatches(TranslateAlternatives(alts), w, i, j) <==> InAlternatives(alts, w[i..j])
    decreases alts, 1
  {
    match alts
    case Last(glob) => WholeMatches(glob, w, i, j);
    case Or(glob, others) =>
      WholeMatches(glob, w, i, j);
      AlternativesMatch(others, w, i, j);
  }

  lemma {:induction false} WholeMatches(g: Glob, w: string, i: nat, j: nat)
    requires i <= j <= |w|
    ensures BranchMatches(Translate(g, End), w, i, j) <==> InGlob(g, w[i..j])
    decreases g, 2
  {
    TranslateMatches(g, End, w, i, j);
    assert BranchMatches(End, w, j, j);
  }

  /** The pieces of the whole expression: the glob's between the two anchors. */
  function Anchored(g: Glob): Ere {
    One(Seq(Single(LineStart), Translate(g, Seq(Single(LineEnd), End))))
  }

  /** The final anchor matches at the end of the string only. */
  lemma TailMatches(w: string, m: nat, j: nat)
    requires m <= j <= |w|
    ensures BranchMatches(Seq(Single(LineEnd), End), w, m, j) <==> m == j == |w|
  {
    var tail := Seq(Single(LineEnd), End);
    if BranchMatches(tail, w, m, j) {
      var k: nat :| m <= k <= j && SplitsAt(tail, w, m, k, j);
      assert PieceMatches(Single(LineEnd), w, m, k) && BranchMatches(End, w, k, j);
    }
    if m == j == |w| {
      assert AtomMatches(LineEnd, w, m, m) && BranchMatches(End, w, m, m);
      assert SplitsAt(tail, w, m, m, m);
    }
  }

  lemma AnchoredMatches(g: Glob, w: string, i: nat, j: nat)
    requires i <= j <= |w|
    ensures EreMatches(Anchored(g), w, i, j) <==> i == 0 && j == |w| && InGlob(g, w)
  {
    var tail := Seq(Single(LineEnd), End);
    var b := Seq(Single(LineStart), Translate(g, tail));
    assert EreMatches(Anchored(g), w, i, j) <==> BranchMatches(b, w, i, j);
    forall m: nat | i <= m <= j ensures BranchMatches(tail, w, m, j) <==> m == j == |w| {
      TailMatches(w, m, j);
    }
    assert w[0..|w|] == w;
    if BranchMatches(b, w, i, j) {
      var k: nat :| i <= k <= j && SplitsAt(b, w, i, k, j);
      assert PieceMatches(Single(LineStart), w, i, k) && AtomMatches(LineStart, w, i, k);
      TranslateMatches(g, tail, w, k, j);
    }
    if i == 0 && j == |w| && InGlob(g, w) {
      TranslateMatches(g, tail, w, 0, j);
      assert AtomMatches(LineStart, w, 0, 0);
      assert SplitsAt(b, w, 0, 0, j);
    }
  }

  /** Found anywhere in a string means that the whole string is in the glob. */
  lemma AnchoredFound(g: Glob, w: string)
    ensures Found(Anchored(g), w) <==> InGlob(g, w)
  {
    if Found(Anchored(g), w) {
      var i: nat, j: nat :| i <= j <= |w| && EreMatches(Anchored(g), w, i, j);
      AnchoredMatches(g, w, i, j);
    }
    AnchoredMatches(g, w, 0, |w|);
  }

  /** The emitted text is an expression exactly when the glob is one, and then it is the glob's. */
  lemma RegexParses(s: string)
    ensures ParseEre(Regex(s)) == if GlobOf(s).None? then None else Some(Anchored(GlobOf(s).value))
  {
    var t := Rest(s, 0);
    assert Regex(s) == "^" + t && Regex(s)[1..] == t;
    RestStart(s, 0);
    ParsersAgree(s, 0);
    FinalAnchor();
    assert ParseBranch(Regex(s), false) == ParseAnchor(LineStart, t, false)
                                        == Follow(Single(LineStart), ParseBranch(t, false));
    var glob := ParseGlob(s, false);
    if glob.Some? {
      assert glob.value.1 == "";
      assert ParseBranch(t, false) == Some((Translate(glob.value.0, Seq(Single(LineEnd), End)), ""));
    }
  }

  lemma FinalAnchor()
    ensures Rest("", 0) == "$" && ParseBranch("$", false) == Some((Seq(Single(LineEnd), End), ""))
  {
    assert "$"[1..] == "";
  }

  /** Both directions: the expression is defined exactly for a glob, and it finds exactly the glob's strings. */
  lemma TranslationPreservesLanguage(s: string, w: string)
    ensures ParseEre(Regex(s)).Some? <==> GlobOf(s).Some?
    ensures GlobOf(s).Some? ==> (Found(ParseEre(Regex(s)).value, w) <==> InGlob(GlobOf(s).value, w))
  {
    RegexParses(s);
    if GlobOf(s).Some? {
      AnchoredFound(GlobOf(s).value, w);
    }
  }

  // ----- Which texts are globs -----

  /**
   A check in one pass: no bracket and no zero character, every opened brace is closed, and no alternative is empty.
   `isNew` says that the current alternative has no item yet.
   */
  predicate Balanced(s: string, depth: nat, isNew: bool) {
    if s == "" then depth == 0
    else if depth > 0 && s[0] == ',' then !isNew && Balanced(s[1..], depth, true)
    else if depth > 0 && s[0] == '}' then !isNew && Balanced(s[1..], depth - 1, false)
    else if s[0] == '{' then Balanced(s[1..], depth + 1, true)
    else s[0] != '[' && s[0] != NUL && Balanced(s[1..], depth, false)
  }

  lemma {:induction false} BalancedParses(s: string, depth: nat, isNew: bool)
    ensures var glob := ParseGlob(s, depth > 0);
            Balanced(s, depth, isNew) <==> glob.Some? && Balanced(glob.value.1, depth, isNew && glob.value.0.Empty?)
    decreases |s|, 0
  {
    if s == "" || (depth > 0 && (s[0] == ',' || s[0] == '}')) {
    } else if s[0] == '{' {
      BalancedAlternatives(s[1..], depth + 1);
      var choice := ParseAlternatives(s[1..]);
      if choice.Some? {
        BalancedParses(choice.value.1, depth, false);
      }
    } else {
      BalancedParses(s[1..], depth, false);
    }
  }

  lemma {:induction false} BalancedAlternatives(s: string, depth: nat)
    requires depth > 0
    ensures var alts := ParseAlternatives(s);
            Balanced(s, depth, true) <==> alts.Some? && Balanced(alts.value.1, depth - 1, false)
    decreases |s|, 1
  {
    BalancedParses(s, depth, true);
    var first := ParseGlob(s, true);
    if first.Some? && first.value.1 != "" && first.value.1[0] == ',' {
      BalancedAlternatives(first.value.1[1..], depth);
    }
  }

  /** A text is a glob, and its translation a defined expression, exactly when it passes the check. */
  lemma GlobIffBalanced(s: string)
    ensures GlobOf(s).Some? <==> Balanced(s, 0, true)
    ensures ParseEre(Regex(s)).Some? <==> Balanced(s, 0, true)
  {
    BalancedParses(s, 0, true);
    RegexParses(s);
  }

  /** Without the check the output may be no expression: an open brace, or an empty alternative. */
  lemma UnbalancedExamples()
    ensures !Balanced("{a", 0, true) && ParseEre(Regex("{a")).None?
    ensures !Balanced("{a,}", 0, true) && ParseEre(Regex("{a,}")).None?
  {
    GlobIffBalanced("{a");
    GlobIffBalanced("{a,}");
    assert "{a"[1..] == "a" && "a"[1..] == "";
    assert "{a,}"[1..] == "a,}" && "a,}"[1..] == ",}" && ",}"[1..] == "}" && "}"[1..] == "";
    assert !Balanced("}", 1, true);
    assert !Balanced(",}", 1, false);
  }

  /** The translation as the source writes it; its meaning holds for every glob and every name. */
  method Glob2Regex(glob: string) returns (globReg: string)
    ensures ParseEre(globReg).Some? <==> Balanced(glob, 0, true)
    ensures Balanced(glob, 0, true) ==> GlobOf(glob).Some?
    ensures Balanced(glob, 0, true) ==>
              forall w :: Found(ParseEre(globReg).value, w) <==> InGlob(GlobOf(glob).value, w)
  {
    globReg := "^";
    var inCurly: nat := 0;
    for i := 0 to |glob|
      invariant globReg + Emit(glob[i..], inCurly) == "^" + Emit(glob, 0)
    {
      var c := glob[i];
      ghost var before, depth := globReg, inCurly;
      match c {
        case '?' => globReg := globReg + ".";
        case '*' => globReg := globReg + ".*";
        case '{' =>
          inCurly := inCurly + 1;
          globReg := globReg + "(";
        case '}' =>
          if inCurly > 0 {
            inCurly := inCurly - 1;
            globReg := globReg + ")";
          } else {
            globReg := globReg + [c];
          }
        case ',' => globReg := globReg + if inCurly > 0 then "|" else ",";
        case _ =>
          if IsEscaped(c) {
            globReg := globReg + "\\";
          }
          globReg := globReg + [c];
      }
      assert glob[i..][1..] == glob[i + 1..];
      EmitStep(glob, i, depth, before, globReg, inCurly);
    }
    assert glob[|glob|..] == "";
    globReg := globReg + "$";
    assert globReg == Regex(glob);
    GlobIffBalanced(glob);
    forall w ensures GlobOf(glob).Some? ==> (Found(ParseEre(globReg).value, w) <==> InGlob(GlobOf(glob).value, w)) {
      TranslationPreservesLanguage(glob, w);
    }
  }

  lemma EmitStep(glob: string, i: nat, depth: nat, before: string, after: string, depth': nat)
    requires i < |glob| && after == before + EmitChar(glob[i], depth) && depth' == DepthAfter(glob[i], depth)
    ensures after + Emit(glob[i + 1..], depth') == before + Emit(glob[i..], depth)
  {
    assert glob[i..][1..] == glob[i + 1..];
  }
}
