// Filename patterns and the regular expressions they are translated to (src/Util.cc,
// globToRegex).
module Globs {
  import opened Options

  // ---------- Patterns ----------

  // A character, plain or after a backslash; any characters but '/'; one such character.
  datatype Simple = Lit(c: char, escaped: bool) | Star | Question

  datatype Piece = One(simple: Simple) | Brace(alts: seq<seq<Simple>>)

  type Glob = seq<Piece>

  const PUNCTUATION := "\\{}[],|*?.+()$^-#@!%&=~:;/ "

  // What may stand in a pattern by itself, and what may follow a backslash.
  predicate PlainInGlob(c: char)
  {
    c !in "\\{}[],|*?"
  }

  predicate GoodSimple(s: Simple)
  {
    s.Lit? ==> if s.escaped then s.c in PUNCTUATION else PlainInGlob(s.c)
  }

  ghost predicate GoodAlt(alt: seq<Simple>)
  {
    forall i :: 0 <= i < |alt| ==> GoodSimple(alt[i])
  }

  ghost predicate GoodGlob(g: Glob)
  {
    forall i :: 0 <= i < |g| ==>
      match g[i]
      case One(s) => GoodSimple(s)
      case Brace(alts) => alts != [] && forall j :: 0 <= j < |alts| ==> GoodAlt(alts[j])
  }

  // ---------- How patterns are written ----------

  function SpellSimple(s: Simple): string
  {
    match s
    case Lit(c, escaped) => if escaped then ['\\', c] else [c]
    case Star => "*"
    case Question => "?"
  }

  function SpellAlt(alt: seq<Simple>): string
  {
    if alt == [] then "" else SpellSimple(alt[0]) + SpellAlt(alt[1..])
  }

  function SpellAlts(alts: seq<seq<Simple>>): string
  {
    if alts == [] then "" else if |alts| == 1 then SpellAlt(alts[0]) else SpellAlt(alts[0]) + "," + SpellAlts(alts[1..])
  }

  function SpellPiece(p: Piece): string
  {
    match p
    case One(s) => SpellSimple(s)
    case Brace(alts) => "{" + SpellAlts(alts) + "}"
  }

  function Spell(g: Glob): string
  {
    if g == [] then "" else SpellPiece(g[0]) + Spell(g[1..])
  }

  // ---------- What patterns match ----------

  ghost predicate AltMatches(alt: seq<Simple>, s: string)
    decreases |alt|, |s|
  {
    if alt == [] then s == ""
    else match alt[0]
      case Lit(c, _) => s != "" && s[0] == c && AltMatches(alt[1..], s[1..])
      case Question => s != "" && s[0] != '/' && AltMatches(alt[1..], s[1..])
      case Star => AltMatches(alt[1..], s) || (s != "" && s[0] != '/' && AltMatches(alt, s[1..]))
  }

  ghost predicate PieceMatches(p: Piece, s: string)
  {
    match p
    case One(x) => AltMatches([x], s)
    case Brace(alts) => exists i :: 0 <= i < |alts| && AltMatches(alts[i], s)
  }

  ghost predicate GlobMatches(g: Glob, s: string)
  {
    if g == [] then s == ""
    else exists k :: 0 <= k <= |s| && PieceMatches(g[0], s[..k]) && GlobMatches(g[1..], s[k..])
  }

  // ---------- Regular expressions ----------

  // The part of Perl syntax that occurs: a character, [^/]*, [^/], and groups (?:...)
  // of alternatives, perhaps optional.
  datatype Atom = Char(c: char) | NotSlashes | NotSlash

  datatype Term = Single(atom: Atom) | Group(alts: seq<seq<Atom>>, optional: bool)

  predicate PlainInRegex(c: char)
  {
    c !in "\\.+()$^*?[]{}|"
  }

  // The atom that s starts with, and the rest.
  function ParseAtom(s: string): Option<(Atom, string)>
  {
    if s == "" then None
    else if |s| >= 5 && s[..5] == "[^/]*" then Some((NotSlashes, s[5..]))
    else if |s| >= 4 && s[..4] == "[^/]" then Some((NotSlash, s[4..]))
    else if s[0] == '\\' && |s| >= 2 && s[1] in PUNCTUATION then Some((Char(s[1]), s[2..]))
    else if PlainInRegex(s[0]) then Some((Char(s[0]), s[1..]))
    else None
  }

  function ParseAtoms(s: string): (r: (seq<Atom>, string))
    ensures |r.1| <= |s|
    decreases |s|
  {
    var first := ParseAtom(s);
    if first.None? || |first.value.1| >= |s| then ([], s)
    else
      var (more, rest) := ParseAtoms(first.value.1);
      ([first.value.0] + more, rest)
  }

  // Alternatives up to the closing parenthesis.
  function ParseAlts(s: string): (r: Option<(seq<seq<Atom>>, string)>)
    ensures r.Some? ==> |r.value.1| < |s|
    decreases |s|
  {
    var (atoms, rest) := ParseAtoms(s);
    if rest == "" then None
    else if rest[0] == ')' then Some(([atoms], rest[1..]))
    else if rest[0] == '|' then
      var more := ParseAlts(rest[1..]);
      if more.None? then None else Some(([atoms] + more.value.0, more.value.1))
    else None
  }

  function ParseRegex(s: string): Option<seq<Term>>
    decreases |s|
  {
    if s == "" then Some([])
    else if |s| >= 3 && s[..3] == "(?:" then
      var group := ParseAlts(s[3..]);
      if group.None? then None
      else
        var (alts, rest) := group.value;
        var optional := rest != "" && rest[0] == '?';
        var more := ParseRegex(if optional then rest[1..] else rest);
        if more.None? then None else Some([Group(alts, optional)] + more.value)
    else
      var first := ParseAtom(s);
      if first.None? || |first.value.1| >= |s| then None
      else
        var more := ParseRegex(first.value.1);
        if more.None? then None else Some([Single(first.value.0)] + more.value)
  }

  ghost predicate AtomsMatch(atoms: seq<Atom>, s: string)
    decreases |atoms|, |s|
  {
    if atoms == [] then s == ""
    else match atoms[0]
      case Char(c) => s != "" && s[0] == c && AtomsMatch(atoms[1..], s[1..])
      case NotSlash => s != "" && s[0] != '/' && AtomsMatch(atoms[1..], s[1..])
      case NotSlashes => AtomsMatch(atoms[1..], s) || (s != "" && s[0] != '/' && AtomsMatch(atoms, s[1..]))
  }

  ghost predicate TermMatches(t: Term, s: string)
  {
    match t
    case Single(a) => AtomsMatch([a], s)
    case Group(alts, optional) => (optional && s == "") || exists i :: 0 <= i < |alts| && AtomsMatch(alts[i], s)
  }

  // The whole of s, as regex_match has it.
  ghost predicate RegexMatches(terms: seq<Term>, s: string)
  {
    if terms == [] then s == ""
    else exists k :: 0 <= k <= |s| && TermMatches(terms[0], s[..k]) && RegexMatches(terms[1..], s[k..])
  }

  // ---------- The translation ----------

  datatype Where = Top | InBrace | InBracket

  datatype Translation = Translation(
    where: Where, literal: bool, length: nat, optional: bool, result: string)

  // One character; None is an exception.
  function Step(t: Translation, ch: char): Option<Translation>
  {
    if t.literal then Some(t.(literal := false, result := t.result + [ch]))
    else
      var u := if t.where == InBrace then t.(length := t.length + 1) else t;
      match ch
      case '\\' => Some(u.(literal := true, result := u.result + [ch]))
      case '{' =>
        if u.where == InBrace then None
        else if u.where == Top then Some(Translation(InBrace, false, 0, false, u.result + "(?:"))
        else Some(u.(result := u.result + [ch]))
      case '}' =>
        if u.where == InBrace then
          var none := u.length == 1;
          var optional := u.optional || none;
          var cut := if none && u.result != "" && u.result[|u.result| - 1] == '|' then u.result[..|u.result| - 1]
                     else u.result;
          Some(u.(where := Top, optional := optional, result := cut + ")" + (if optional then "?" else "")))
        else Some(u.(result := u.result + [ch]))
      case '[' => Some(u.(where := if u.where == Top then InBracket else u.where, result := u.result + [ch]))
      case ']' => Some(u.(where := if u.where == InBracket then Top else u.where, result := u.result + [ch]))
      case ',' =>
        if u.where == InBrace then
          Some(u.(length := 0, optional := u.optional || u.length == 1,
                  result := u.result + (if u.length == 1 then "" else "|")))
        else Some(u.(result := u.result + [ch]))
      case '*' => Some(u.(result := u.result + "[^/]*"))
      case '?' => Some(u.(result := u.result + "[^/]"))
      case _ =>
        Some(u.(result := u.result + (if ch == '^' && u.where == InBracket then [ch]
                                      else if ch in ".+()$^" then ['\\', ch] else [ch])))
  }

  function Run(t: Translation, glob: string): Option<Translation>
    decreases |glob|
  {
    if glob == "" then Some(t)
    else
      var next := Step(t, glob[0]);
      if next.None? then None else Run(next.value, glob[1..])
  }

  const START: Translation := Translation(Top, false, 0, false, "")

  // globToRegex; None stands for its exceptions.
  function GlobToRegex(glob: string): Option<string>
  {
    if glob == "" then None
    else
      var t := Run(START, glob);
      if t.None? || t.value.literal || t.value.where != Top then None else Some(t.value.result)
  }

  method TranslateGlob(glob: string) returns (regex: Option<string>)
    ensures regex == GlobToRegex(glob)
  {
    if glob == "" {
      return None;
    }
    var t := START;
    var i := 0;
    while i < |glob|
      invariant i <= |glob| && Run(START, glob) == Run(t, glob[i..])
    {
      var next := Step(t, glob[i]);
      assert glob[i..][1..] == glob[i + 1..];
      if next.None? {
        return None;
      }
      t := next.value;
      i := i + 1;
    }
    regex := if t.literal || t.where != Top then None else Some(t.result);
  }

  // ---------- What is emitted ----------

  function EmitSimple(s: Simple): string
  {
    match s
    case Lit(c, escaped) => if escaped || c in ".+()$^" then ['\\', c] else [c]
    case Star => "[^/]*"
    case Question => "[^/]"
  }

  function EmitAlt(alt: seq<Simple>): string
  {
    if alt == [] then "" else EmitSimple(alt[0]) + EmitAlt(alt[1..])
  }

  function NonEmpty(alts: seq<seq<Simple>>): seq<seq<Simple>>
  {
    if alts == [] then [] else (if alts[0] == [] then [] else [alts[0]]) + NonEmpty(alts[1..])
  }

  function EmitAlts(alts: seq<seq<Simple>>): string
  {
    if alts == [] then "" else if |alts| == 1 then EmitAlt(alts[0]) else EmitAlt(alts[0]) + "|" + EmitAlts(alts[1..])
  }

  predicate HasEmpty(alts: seq<seq<Simple>>)
  {
    [] in alts
  }

  function EmitPiece(p: Piece): string
  {
    match p
    case One(s) => EmitSimple(s)
    case Brace(alts) => "(?:" + EmitAlts(NonEmpty(alts)) + ")" + (if HasEmpty(alts) then "?" else "")
  }

  function Emit(g: Glob): string
  {
    if g == [] then "" else EmitPiece(g[0]) + Emit(g[1..])
  }

  lemma {:induction false} RunAppend(t: Translation, a: string, b: string)
    ensures Run(t, a + b) == (var u := Run(t, a); if u.None? then None else Run(u.value, b))
    decreases |a|
  {
    if a == "" {
      assert a + b == b;
    } else {
      assert (a + b)[0] == a[0] && (a + b)[1..] == a[1..] + b;
      if Step(t, a[0]).Some? {
        RunAppend(Step(t, a[0]).value, a[1..], b);
      }
    }
  }

  lemma RunOne(t: Translation, c: char)
    ensures Run(t, [c]) == Step(t, c)
  {
    assert [c][1..] == "";
    if Step(t, c).Some? {
      assert Run(Step(t, c).value, "") == Step(t, c);
    }
  }

  // A simple piece adds what it stands for and counts once.
  lemma RunSimple(t: Translation, s: Simple)
    requires GoodSimple(s) && !t.literal && t.where != InBracket
    ensures Run(t, SpellSimple(s)) ==
            Some(t.(length := t.length + (if t.where == InBrace then 1 else 0), result := t.result + EmitSimple(s)))
  {
    hide Run;
    match s
    case Lit(c, escaped) =>
      if escaped {
        assert ['\\', c] == ['\\'] + [c];
        RunAppend(t, ['\\'], [c]);
        RunOne(t, '\\');
        RunOne(Step(t, '\\').value, c);
        assert t.result + ['\\'] + [c] == t.result + ['\\', c];
      } else {
        RunOne(t, c);
      }
    case Star => RunOne(t, '*');
    case Question => RunOne(t, '?');
  }

  // Characters counted for an alternative.
  lemma {:induction false} RunAlt(t: Translation, alt: seq<Simple>)
    requires GoodAlt(alt) && !t.literal && t.where == InBrace
    ensures Run(t, SpellAlt(alt)) == Some(t.(length := t.length + |alt|, result := t.result + EmitAlt(alt)))
    decreases |alt|
  {
    hide Run, SpellSimple, EmitSimple;
    if alt == [] {
      NothingToRun(t);
      assert t.result + "" == t.result;
    } else {
      RunAppend(t, SpellSimple(alt[0]), SpellAlt(alt[1..]));
      RunSimple(t, alt[0]);
      var u := t.(length := t.length + 1, result := t.result + EmitSimple(alt[0]));
      RunAlt(u, alt[1..]);
      assert u.result + EmitAlt(alt[1..]) == t.result + EmitAlt(alt);
    }
  }

  lemma NothingToRun(t: Translation)
    ensures Run(t, "") == Some(t)
  {
  }

  // What a brace has emitted when some alternatives and a comma have been read.
  function Sofar(alts: seq<seq<Simple>>): string
  {
    if alts == [] then "" else (if alts[0] == [] then "" else EmitAlt(alts[0]) + "|") + Sofar(alts[1..])
  }

  // In a brace, just after the opening or a comma.
  ghost predicate AtStart(t: Translation)
  {
    t.where == InBrace && !t.literal && t.length == 0 && t.result != ""
  }

  // The rest of a brace.  A bar at the end of the result is then one that stands for a
  // comma, never an escaped one.
  lemma {:induction false} RunAlts(t: Translation, base: string, done: seq<seq<Simple>>, alts: seq<seq<Simple>>)
    requires AtStart(t) && alts != [] && (forall j :: 0 <= j < |alts| ==> GoodAlt(alts[j]))
    requires base != "" && base[|base| - 1] != '|' && t.result == base + Sofar(done) && (t.optional <==> HasEmpty(done))
    ensures var all := done + alts;
            Run(t, SpellAlts(alts) + "}") ==
              Some(Translation(Top, false, if alts[|alts| - 1] == [] then 1 else |alts[|alts| - 1]| + 1, HasEmpty(all),
                               base + EmitAlts(NonEmpty(all)) + ")" + (if HasEmpty(all) then "?" else "")))
    decreases |alts|
  {
    hide Run, Step, EmitAlt, SpellAlt, NonEmpty, EmitAlts;
    var alt := alts[0];
    var u := t.(length := |alt|, result := t.result + EmitAlt(alt));
    RunAlt(t, alt);
    if |alts| == 1 {
      RunAppend(t, SpellAlt(alt), "}");
      RunOne(u, '}');
      CloseBrace(u, base, done, alt);
      assert done + alts == done + [alt];
    } else {
      var rest := SpellAlts(alts[1..]) + "}";
      assert SpellAlts(alts) + "}" == SpellAlt(alt) + ("," + rest);
      RunAppend(t, SpellAlt(alt), "," + rest);
      RunAppend(u, ",", rest);
      RunOne(u, ',');
      Comma(u, base, done, alt);
      assert done + [alt] + alts[1..] == done + alts;
      RunAlts(Step(u, ',').value, base, done + [alt], alts[1..]);
    }
  }

  lemma {:induction false} SofarPush(done: seq<seq<Simple>>, alt: seq<Simple>)
    ensures Sofar(done + [alt]) == Sofar(done) + (if alt == [] then "" else EmitAlt(alt) + "|")
  {
    hide EmitAlt;
    if done == [] {
      assert done + [alt] == [alt] && [alt][1..] == [];
    } else {
      assert (done + [alt])[1..] == done[1..] + [alt] && (done + [alt])[0] == done[0];
      SofarPush(done[1..], alt);
    }
  }

  lemma {:induction false} NonEmptyPush(done: seq<seq<Simple>>, alt: seq<Simple>)
    ensures NonEmpty(done + [alt]) == NonEmpty(done) + (if alt == [] then [] else [alt])
  {
    if done == [] {
      assert done + [alt] == [alt] && [alt][1..] == [];
    } else {
      assert (done + [alt])[1..] == done[1..] + [alt] && (done + [alt])[0] == done[0];
      NonEmptyPush(done[1..], alt);
    }
  }

  lemma EmptyEmits()
    ensures EmitAlt([]) == ""
  {
  }

  lemma Comma(u: Translation, base: string, done: seq<seq<Simple>>, alt: seq<Simple>)
    requires u.where == InBrace && !u.literal && u.length == |alt| && base != ""
    requires u.result == base + Sofar(done) + EmitAlt(alt) && (u.optional <==> HasEmpty(done))
    ensures Step(u, ',').Some? && AtStart(Step(u, ',').value)
    ensures Step(u, ',').value.result == base + Sofar(done + [alt])
    ensures Step(u, ',').value.optional <==> HasEmpty(done + [alt])
  {
    hide EmitAlt, Sofar;
    SofarPush(done, alt);
    EmptyEmits();
    if alt == [] {
      assert u.result + "" == base + (Sofar(done) + "");
    } else {
      assert u.result + "|" == base + (Sofar(done) + (EmitAlt(alt) + "|"));
    }
    assert [] in done + [alt] <==> [] in done || alt == [];
  }

  lemma {:induction false} SofarJoined(alts: seq<seq<Simple>>)
    ensures Sofar(alts) == (if NonEmpty(alts) == [] then "" else EmitAlts(NonEmpty(alts)) + "|")
  {
    hide EmitAlt;
    if alts != [] {
      var more := NonEmpty(alts[1..]);
      SofarJoined(alts[1..]);
      if alts[0] == [] {
        assert NonEmpty(alts) == more;
        assert Sofar(alts) == Sofar(alts[1..]);
      } else {
        assert NonEmpty(alts) == [alts[0]] + more && NonEmpty(alts)[1..] == more;
        if more != [] {
          assert Sofar(alts) == EmitAlt(alts[0]) + "|" + EmitAlts(more) + "|";
        }
      }
    }
  }

  lemma {:induction false} EmitAltsPush(alts: seq<seq<Simple>>, alt: seq<Simple>)
    ensures EmitAlts(alts + [alt]) == (if alts == [] then EmitAlt(alt) else EmitAlts(alts) + "|" + EmitAlt(alt))
  {
    hide EmitAlt;
    if alts == [] {
      assert alts + [alt] == [alt];
    } else {
      assert (alts + [alt])[1..] == alts[1..] + [alt];
      EmitAltsPush(alts[1..], alt);
    }
  }

  lemma CloseBrace(u: Translation, base: string, done: seq<seq<Simple>>, alt: seq<Simple>)
    requires u.where == InBrace && !u.literal && u.length == |alt| && base != "" && base[|base| - 1] != '|'
    requires u.result == base + Sofar(done) + EmitAlt(alt) && (u.optional <==> HasEmpty(done))
    ensures var all := done + [alt];
            Step(u, '}') == Some(Translation(Top, false, |alt| + 1, HasEmpty(all),
                                             base + EmitAlts(NonEmpty(all)) + ")" +
                                             (if HasEmpty(all) then "?" else "")))
  {
    hide EmitAlt, Sofar, NonEmpty, EmitAlts;
    var all := done + [alt];
    NonEmptyPush(done, alt);
    SofarJoined(done);
    EmptyEmits();
    assert HasEmpty(all) <==> HasEmpty(done) || alt == [];
    if alt == [] {
      NoneEmitted();
      assert NonEmpty(all) == NonEmpty(done);
      if NonEmpty(done) == [] {
        assert u.result == base && base + EmitAlts(NonEmpty(all)) == base;
      } else {
        assert u.result == base + EmitAlts(NonEmpty(all)) + "|";
      }
    } else {
      EmitAltsPush(NonEmpty(done), alt);
      assert u.result == base + EmitAlts(NonEmpty(all));
    }
  }

  lemma NoneEmitted()
    ensures EmitAlts([]) == ""
  {
  }

  lemma Regroup(a: string, b: string, c: string, d: string, e: string)
    ensures a + b + c + d + e == a + (b + c + d + e)
    ensures b + c + d == b + (c + d)
  {
  }

  lemma RunBrace(t: Translation, alts: seq<seq<Simple>>)
    requires alts != [] && (forall j :: 0 <= j < |alts| ==> GoodAlt(alts[j])) && !t.literal && t.where == Top
    ensures var u := Run(t, "{" + (SpellAlts(alts) + "}"));
            && u.Some? && !u.value.literal && u.value.where == Top
            && u.value.result ==
                 t.result + "(?:" + EmitAlts(NonEmpty(alts)) + ")" + (if HasEmpty(alts) then "?" else "")
  {
    hide Run, Step, SpellAlts, EmitAlts, NonEmpty, GoodAlt;
    var base := t.result + "(?:";
    var u := Translation(InBrace, false, 0, false, base);
    RunAppend(t, "{", SpellAlts(alts) + "}");
    RunOne(t, '{');
    OpenBrace(t);
    assert base + Sofar([]) == base && [] + alts == alts;
    RunAlts(u, base, [], alts);
  }

  lemma RunPiece(t: Translation, p: Piece)
    requires GoodGlob([p]) && !t.literal && t.where == Top
    ensures var u := Run(t, SpellPiece(p));
            u.Some? && !u.value.literal && u.value.where == Top && u.value.result == t.result + EmitPiece(p)
  {
    hide Run, Step, SpellAlts, EmitAlts, NonEmpty, SpellSimple, EmitSimple, GoodAlt, GoodSimple;
    assert [p][0] == p;
    match p
    case One(s) => RunSimple(t, s);
    case Brace(alts) =>
      RunBrace(t, alts);
      Regroup("", "{", SpellAlts(alts), "}", "");
      Regroup(t.result, "(?:", EmitAlts(NonEmpty(alts)), ")", if HasEmpty(alts) then "?" else "");
  }

  lemma OpenBrace(t: Translation)
    requires !t.literal && t.where == Top
    ensures Step(t, '{') == Some(Translation(InBrace, false, 0, false, t.result + "(?:"))
  {
  }

  lemma {:induction false} RunGlob(t: Translation, g: Glob)
    requires GoodGlob(g) && !t.literal && t.where == Top
    ensures var u := Run(t, Spell(g));
            u.Some? && !u.value.literal && u.value.where == Top && u.value.result == t.result + Emit(g)
    decreases |g|
  {
    hide Run, SpellPiece, EmitPiece;
    if g == [] {
      NothingToRun(t);
    } else {
      FirstIsGood(g);
      RunPiece(t, g[0]);
      RunAppend(t, SpellPiece(g[0]), Spell(g[1..]));
      RunGlob(Run(t, SpellPiece(g[0])).value, g[1..]);
    }
  }

  lemma FirstIsGood(g: Glob)
    requires GoodGlob(g) && g != []
    ensures GoodGlob([g[0]]) && GoodGlob(g[1..])
  {
  }

  lemma GlobIsSpelt(g: Glob)
    requires GoodGlob(g) && g != []
    ensures Spell(g) != ""
  {
    assert SpellPiece(g[0]) != "";
  }

  // ---------- What the emitted expression means ----------

  function AtomOf(s: Simple): Atom
  {
    match s
    case Lit(c, _) => Char(c)
    case Star => NotSlashes
    case Question => NotSlash
  }

  function AtomsOf(alt: seq<Simple>): seq<Atom>
  {
    if alt == [] then [] else [AtomOf(alt[0])] + AtomsOf(alt[1..])
  }

  function AltsOf(alts: seq<seq<Simple>>): seq<seq<Atom>>
  {
    if alts == [] then [] else [AtomsOf(alts[0])] + AltsOf(alts[1..])
  }

  function TermOf(p: Piece): Term
  {
    match p
    case One(s) => Single(AtomOf(s))
    case Brace(alts) => Group(if NonEmpty(alts) == [] then [[]] else AltsOf(NonEmpty(alts)), HasEmpty(alts))
  }

  function TermsOf(g: Glob): seq<Term>
  {
    if g == [] then [] else [TermOf(g[0])] + TermsOf(g[1..])
  }

  // No emitted expression starts with a repetition.
  ghost predicate NoRepetition(s: string)
  {
    s == "" || (s[0] != '*' && s[0] != '?')
  }

  lemma SimpleStart(s: Simple, tail: string)
    requires GoodSimple(s)
    ensures EmitSimple(s) != "" && NoRepetition(EmitSimple(s) + tail)
    ensures EmitSimple(s)[0] != '('
  {
  }

  lemma ParseSimple(s: Simple, tail: string)
    requires GoodSimple(s) && NoRepetition(tail)
    ensures ParseAtom(EmitSimple(s) + tail) == Some((AtomOf(s), tail))
  {
    var text := EmitSimple(s) + tail;
    match s
    case Lit(c, escaped) =>
      if escaped || c in ".+()$^" {
        assert text == ['\\', c] + tail && text[0] == '\\' && text[1] == c && text[2..] == tail;
        NotBracket(text);
      } else {
        assert text == [c] + tail && text[0] == c && text[1..] == tail;
        NotBracket(text);
      }
    case Star =>
      assert text[..5] == "[^/]*" && text[5..] == tail;
    case Question =>
      assert text[..4] == "[^/]" && text[4..] == tail;
      if |text| >= 5 {
        assert text[4] == tail[0] && text[..5][4] == text[4] && "[^/]*"[4] == '*';
      }
  }

  lemma NotBracket(text: string)
    requires text != "" && text[0] != '['
    ensures |text| >= 5 ==> text[..5] != "[^/]*"
    ensures |text| >= 4 ==> text[..4] != "[^/]"
  {
    if |text| >= 5 {
      assert text[..5][0] == text[0] && "[^/]*"[0] == '[';
    }
    if |text| >= 4 {
      assert text[..4][0] == text[0] && "[^/]"[0] == '[';
    }
  }

  lemma StopsHere(tail: string)
    requires tail == "" || tail[0] == '|' || tail[0] == ')'
    ensures ParseAtoms(tail) == ([], tail) && NoRepetition(tail)
  {
    if tail != "" {
      NotBracket(tail);
    }
  }

  lemma {:induction false} ParseAlt(alt: seq<Simple>, tail: string)
    requires GoodAlt(alt) && (tail == "" || tail[0] == '|' || tail[0] == ')')
    ensures ParseAtoms(EmitAlt(alt) + tail) == (AtomsOf(alt), tail)
    ensures NoRepetition(EmitAlt(alt) + tail)
    decreases |alt|
  {
    hide ParseAtom, EmitSimple;
    StopsHere(tail);
    if alt == [] {
      assert EmitAlt(alt) + tail == tail;
    } else {
      var rest := EmitAlt(alt[1..]) + tail;
      ParseAlt(alt[1..], tail);
      ParseSimple(alt[0], rest);
      SimpleStart(alt[0], rest);
      assert EmitAlt(alt) + tail == EmitSimple(alt[0]) + rest;
    }
  }

  lemma {:induction false} ParseGroup(alts: seq<seq<Simple>>, tail: string)
    requires forall j :: 0 <= j < |alts| ==> GoodAlt(alts[j])
    ensures ParseAlts(EmitAlts(alts) + ")" + tail) == Some((if alts == [] then [[]] else AltsOf(alts), tail))
    decreases |alts|
  {
    hide ParseAtoms, EmitAlt, AtomsOf;
    var close := ")" + tail;
    assert close[0] == ')' && close[1..] == tail;
    if alts == [] {
      assert EmitAlts(alts) + ")" + tail == close;
      StopsHere(close);
    } else if |alts| == 1 {
      ParseAlt(alts[0], close);
      assert EmitAlts(alts) + ")" + tail == EmitAlt(alts[0]) + close;
      assert AltsOf(alts) == [AtomsOf(alts[0])];
    } else {
      var rest := EmitAlts(alts[1..]) + ")" + tail;
      var bar := "|" + rest;
      assert bar[0] == '|' && bar[1..] == rest;
      ParseAlt(alts[0], bar);
      ParseGroup(alts[1..], tail);
      assert EmitAlts(alts) + ")" + tail == EmitAlt(alts[0]) + bar;
    }
  }

  lemma {:induction false} NonEmptyGood(alts: seq<seq<Simple>>)
    requires forall j :: 0 <= j < |alts| ==> GoodAlt(alts[j])
    ensures forall j :: 0 <= j < |NonEmpty(alts)| ==> GoodAlt(NonEmpty(alts)[j])
  {
    hide GoodAlt;
    if alts != [] {
      NonEmptyGood(alts[1..]);
    }
  }

  // Reading the emitted expression back gives the terms the pattern stands for.
  lemma {:induction false} ParseEmitted(g: Glob)
    requires GoodGlob(g)
    ensures ParseRegex(Emit(g)) == Some(TermsOf(g)) && NoRepetition(Emit(g))
    decreases |g|
  {
    hide ParseAtom, ParseAlts, EmitSimple, EmitAlts, NonEmpty, AltsOf, GoodSimple, GoodAlt;
    if g != [] {
      FirstIsGood(g);
      ParseEmitted(g[1..]);
      var tail := Emit(g[1..]);
      match g[0]
      case One(s) => ParseFirstSimple(s, tail);
      case Brace(alts) => ParseFirstGroup(alts, tail);
    }
  }

  lemma ParseFirstSimple(s: Simple, tail: string)
    requires GoodSimple(s) && NoRepetition(tail) && ParseRegex(tail).Some?
    ensures var text := EmitSimple(s) + tail;
            ParseRegex(text) == Some([Single(AtomOf(s))] + ParseRegex(tail).value) && NoRepetition(text)
  {
    hide ParseAtom, EmitSimple;
    var text := EmitSimple(s) + tail;
    SimpleStart(s, tail);
    ParseSimple(s, tail);
    assert text[0] == EmitSimple(s)[0];
    if |text| >= 3 {
      assert text[..3][0] == text[0] && "(?:"[0] == '(';
    }
  }

  lemma ParseFirstGroup(alts: seq<seq<Simple>>, tail: string)
    requires (forall j :: 0 <= j < |alts| ==> GoodAlt(alts[j])) && NoRepetition(tail) && ParseRegex(tail).Some?
    ensures var text := EmitPiece(Brace(alts)) + tail;
            ParseRegex(text) == Some([TermOf(Brace(alts))] + ParseRegex(tail).value) && NoRepetition(text)
  {
    hide ParseAlts, EmitAlts, NonEmpty, AltsOf, GoodAlt;
    var text := EmitPiece(Brace(alts)) + tail;
    var mark := if HasEmpty(alts) then "?" else "";
    var rest := mark + tail;
    NonEmptyGood(alts);
    ParseGroup(NonEmpty(alts), rest);
    assert text == "(?:" + (EmitAlts(NonEmpty(alts)) + ")" + rest);
    assert text[..3] == "(?:" && text[3..] == EmitAlts(NonEmpty(alts)) + ")" + rest;
    if HasEmpty(alts) {
      assert rest[0] == '?' && rest[1..] == tail;
    } else {
      assert rest == tail;
    }
  }

  lemma {:induction false} SameAlt(alt: seq<Simple>, s: string)
    ensures AtomsMatch(AtomsOf(alt), s) <==> AltMatches(alt, s)
    decreases |alt|, |s|
  {
    if alt != [] {
      assert AtomsOf(alt)[1..] == AtomsOf(alt[1..]);
      SameAlt(alt[1..], s);
      if s != "" {
        SameAlt(alt[1..], s[1..]);
        if alt[0] == Star {
          SameAlt(alt, s[1..]);
        }
      }
    }
  }

  lemma {:induction false} AltsOfAt(alts: seq<seq<Simple>>, j: nat)
    requires j < |alts|
    ensures |AltsOf(alts)| == |alts| && AltsOf(alts)[j] == AtomsOf(alts[j])
    decreases |alts|
  {
    hide AtomsOf;
    AltsOfLength(alts);
    if j > 0 {
      AltsOfAt(alts[1..], j - 1);
    }
  }

  lemma {:induction false} AltsOfLength(alts: seq<seq<Simple>>)
    ensures |AltsOf(alts)| == |alts|
  {
    if alts != [] {
      AltsOfLength(alts[1..]);
    }
  }

  lemma {:induction false} NonEmptyMembers(alts: seq<seq<Simple>>, alt: seq<Simple>)
    ensures alt in NonEmpty(alts) <==> alt in alts && alt != []
  {
    if alts != [] {
      NonEmptyMembers(alts[1..], alt);
      assert alts == [alts[0]] + alts[1..];
    }
  }

  lemma SamePiece(p: Piece, s: string)
    requires p.Brace? ==> p.alts != []
    ensures TermMatches(TermOf(p), s) <==> PieceMatches(p, s)
  {
    hide AtomsMatch, AltMatches, AtomsOf, AltsOf, NonEmpty;
    match p
    case One(x) =>
      SameAlt([x], s);
      OneAtom(x);
    case Brace(alts) =>
      var some := NonEmpty(alts);
      NothingMatches(s);
      AltsOfLength(some);
      if some == [] {
        AllEmpty(alts);
      }
      if i :| 0 <= i < |alts| && AltMatches(alts[i], s) {
        if alts[i] != [] {
          NonEmptyMembers(alts, alts[i]);
          var j :| 0 <= j < |some| && some[j] == alts[i];
          AltsOfAt(some, j);
          SameAlt(some[j], s);
          assert AtomsMatch(AltsOf(some)[j], s);
        } else {
          assert [] in alts;
        }
      }
      if TermMatches(TermOf(p), s) {
        if HasEmpty(alts) && s == "" {
          var i :| 0 <= i < |alts| && alts[i] == [];
          assert AltMatches(alts[i], s);
        } else {
          var j :| 0 <= j < |some| && AtomsMatch(AltsOf(some)[j], s);
          AltsOfAt(some, j);
          SameAlt(some[j], s);
          NonEmptyMembers(alts, some[j]);
          var i :| 0 <= i < |alts| && alts[i] == some[j];
          assert AltMatches(alts[i], s);
        }
      }
  }

  lemma OneAtom(x: Simple)
    ensures AtomsOf([x]) == [AtomOf(x)]
  {
    assert [x][1..] == [];
  }

  lemma NothingMatches(s: string)
    ensures AtomsMatch([], s) <==> s == ""
    ensures AltMatches([], s) <==> s == ""
  {
  }

  lemma AllEmpty(alts: seq<seq<Simple>>)
    requires NonEmpty(alts) == [] && alts != []
    ensures HasEmpty(alts)
  {
    NonEmptyMembers(alts, alts[0]);
    assert alts[0] in alts;
  }

  lemma {:induction false} SameGlob(g: Glob, s: string)
    requires GoodGlob(g)
    ensures RegexMatches(TermsOf(g), s) <==> GlobMatches(g, s)
    decreases |g|
  {
    hide TermOf, TermMatches, PieceMatches;
    if g != [] {
      FirstIsGood(g);
      assert TermsOf(g)[1..] == TermsOf(g[1..]);
      forall k | 0 <= k <= |s|
        ensures TermMatches(TermsOf(g)[0], s[..k]) <==> PieceMatches(g[0], s[..k])
        ensures RegexMatches(TermsOf(g)[1..], s[k..]) <==> GlobMatches(g[1..], s[k..])
      {
        SamePiece(g[0], s[..k]);
        SameGlob(g[1..], s[k..]);
      }
    }
  }

  // The translation preserves the meaning of every pattern of plain characters, escaped
  // punctuation, '*', '?' and braces with possibly empty alternatives.
  lemma TranslationPreserves(g: Glob, s: string)
    requires GoodGlob(g) && g != []
    ensures GlobToRegex(Spell(g)).Some?
    ensures ParseRegex(GlobToRegex(Spell(g)).value).Some?
    ensures RegexMatches(ParseRegex(GlobToRegex(Spell(g)).value).value, s) <==> GlobMatches(g, s)
  {
    hide Run, Spell, Emit, ParseRegex, RegexMatches, GlobMatches, GoodGlob;
    GlobIsSpelt(g);
    RunGlob(START, g);
    assert "" + Emit(g) == Emit(g);
    ParseEmitted(g);
    SameGlob(g, s);
  }
}
