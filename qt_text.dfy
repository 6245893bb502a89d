/**
 * The QString operations the C++ sources rely on: `trimmed()`,
 * `toLower()`, `split(",")` with and without empty parts, and the order
 * `operator<` gives the keys of a QMap.
 */
module QtText {

  /** `QChar::isSpace`: the ASCII white space, NEL, and Unicode's space, line and paragraph separators. */
  predicate IsSpace(c: char)
  {
    || c == ' ' || c == '\t' || c == '\n' || c == '\U{0B}' || c == '\U{0C}' || c == '\r'
    || c == '\U{85}' || c == '\U{A0}' || c == '\U{1680}'
    || ('\U{2000}' <= c <= '\U{200A}')
    || c == '\U{2028}' || c == '\U{2029}' || c == '\U{202F}' || c == '\U{205F}' || c == '\U{3000}'
  }

  /** The string without its leading white space. */
  function TrimStart(s: string): (r: string)
    ensures |r| <= |s|
    ensures r == [] || !IsSpace(r[0])
  {
    if |s| > 0 && IsSpace(s[0]) then TrimStart(s[1..]) else s
  }

  /** What is left after the leading white space is the end of the string. */
  lemma {:induction false} TrimStartSuffix(s: string)
    ensures TrimStart(s) == s[|s| - |TrimStart(s)|..]
  {
    if |s| > 0 && IsSpace(s[0]) {
      TrimStartSuffix(s[1..]);
      assert s[1..][|s| - 1 - |TrimStart(s[1..])|..] == s[|s| - |TrimStart(s)|..];
    }
  }

  /** Everything trimmed from the start is white space. */
  lemma {:induction false} TrimStartBlank(s: string)
    ensures forall i :: 0 <= i < |s| - |TrimStart(s)| ==> IsSpace(s[i])
  {
    if |s| > 0 && IsSpace(s[0]) {
      TrimStartBlank(s[1..]);
      assert forall i :: 1 <= i < |s| ==> s[i] == s[1..][i - 1];
    }
  }

  /** The string without its trailing white space. */
  function TrimEnd(s: string): (r: string)
    ensures |r| <= |s| && r == s[..|r|]
    ensures r == [] || !IsSpace(r[|r| - 1])
  {
    if |s| > 0 && IsSpace(s[|s| - 1]) then TrimEnd(s[..|s| - 1]) else s
  }

  /** Everything trimmed from the end is white space. */
  lemma {:induction false} TrimEndBlank(s: string)
    ensures forall i :: |TrimEnd(s)| <= i < |s| ==> IsSpace(s[i])
  {
    if |s| > 0 && IsSpace(s[|s| - 1]) {
      TrimEndBlank(s[..|s| - 1]);
    }
  }

  /** `trimmed()`: white space removed from both ends. */
  function Trim(s: string): string
  {
    TrimEnd(TrimStart(s))
  }

  /** How many white-space characters lead the string. */
  function Lead(s: string): nat
  {
    |s| - |TrimStart(s)|
  }

  /** A trimmed string is the piece of the original after its leading white space that neither starts nor ends with white space. */
  lemma TrimShape(s: string)
    ensures var r := Trim(s);
      && (r == [] || (!IsSpace(r[0]) && !IsSpace(r[|r| - 1])))
      && Lead(s) + |r| <= |s| && r == s[Lead(s)..Lead(s) + |r|]
  {
    var a := TrimStart(s);
    var r := TrimEnd(a);
    var lo := |s| - |a|;
    TrimStartSuffix(s);
    assert a == s[lo..];
    assert r == a[..|r|] && |r| <= |a|;
    assert a[..|r|] == s[lo..lo + |r|];
    if r != [] {
      assert r[0] == a[0];
    }
  }

  /** Trimming is all or nothing on blank strings: only a string of white space trims to the empty string. */
  lemma TrimEmpty(s: string)
    ensures Trim(s) == [] <==> forall i :: 0 <= i < |s| ==> IsSpace(s[i])
  {
    var a := TrimStart(s);
    TrimStartSuffix(s);
    TrimStartBlank(s);
    TrimEndBlank(a);
    if Trim(s) == [] {
      assert a == [];
    }
  }

  /** Trimming a trimmed string changes nothing. */
  lemma TrimIdempotent(s: string)
    ensures Trim(Trim(s)) == Trim(s)
  {
    var r := Trim(s);
    TrimShape(s);
    if r != [] {
      assert TrimStart(r) == r;
      assert TrimEnd(r) == r;
    }
  }

  /** `QChar::toLower` on the ASCII letters; every other character is kept. */
  function LowerChar(c: char): char
  {
    if 'A' <= c <= 'Z' then (c as int - 'A' as int + 'a' as int) as char else c
  }

  /** `toLower()`, character by character. */
  function ToLower(s: string): (r: string)
    ensures |r| == |s| && forall i :: 0 <= i < |s| ==> r[i] == LowerChar(s[i])
  {
    seq(|s|, i requires 0 <= i < |s| => LowerChar(s[i]))
  }

  /** Lowering a lowered string changes nothing, and leaves no ASCII capital. */
  lemma ToLowerIdempotent(s: string)
    ensures ToLower(ToLower(s)) == ToLower(s)
    ensures forall i :: 0 <= i < |s| ==> !('A' <= ToLower(s)[i] <= 'Z')
  {
  }

  /** Lowering keeps white space where it is, so it commutes with trimming. */
  lemma TrimToLower(s: string)
    ensures Trim(ToLower(s)) == ToLower(Trim(s))
  {
    assert forall c :: IsSpace(LowerChar(c)) <==> IsSpace(c);
    TrimStartToLower(s);
    TrimEndToLower(TrimStart(s));
  }

  lemma {:induction false} TrimStartToLower(s: string)
    requires forall c :: IsSpace(LowerChar(c)) <==> IsSpace(c)
    ensures TrimStart(ToLower(s)) == ToLower(TrimStart(s))
  {
    if |s| > 0 && IsSpace(s[0]) {
      TrimStartToLower(s[1..]);
      assert ToLower(s)[1..] == ToLower(s[1..]);
    }
  }

  lemma {:induction false} TrimEndToLower(s: string)
    requires forall c :: IsSpace(LowerChar(c)) <==> IsSpace(c)
    ensures TrimEnd(ToLower(s)) == ToLower(TrimEnd(s))
  {
    if |s| > 0 && IsSpace(s[|s| - 1]) {
      TrimEndToLower(s[..|s| - 1]);
      assert ToLower(s)[..|s| - 1] == ToLower(s[..|s| - 1]);
    }
  }

  /** `split(",")`: the pieces between the commas, empty ones included; there is always one more piece than commas. */
  function Split(s: string): (r: seq<string>)
    ensures |r| >= 1
  {
    if |s| == 0 then [""]
    else
      var init := Split(s[..|s| - 1]);
      if s[|s| - 1] == ',' then init + [""]
      else init[..|init| - 1] + [init[|init| - 1] + [s[|s| - 1]]]
  }

  /** No piece holds a comma. */
  lemma {:induction false} SplitPieces(s: string)
    ensures forall i :: 0 <= i < |Split(s)| ==> ',' !in Split(s)[i]
  {
    if |s| > 0 {
      var front, c := s[..|s| - 1], s[|s| - 1];
      SplitPieces(front);
      var init := Split(front);
      if c != ',' {
        var last := init[|init| - 1];
        assert ',' !in last;
        assert ',' !in last + [c];
        assert Split(s) == init[..|init| - 1] + [last + [c]];
      } else {
        assert Split(s) == init + [""];
      }
    }
  }

  /** One more character: a comma starts a new piece, anything else extends the last one. */
  lemma SplitSnoc(s: string, c: char)
    ensures var init := Split(s);
      Split(s + [c]) == if c == ',' then init + [""] else init[..|init| - 1] + [init[|init| - 1] + [c]]
  {
    assert (s + [c])[..|s|] == s;
  }

  /** Text without commas extends the last piece. */
  lemma {:induction false} SplitExtend(s: string, b: string)
    requires ',' !in b
    ensures var init := Split(s);
      Split(s + b) == init[..|init| - 1] + [init[|init| - 1] + b]
  {
    var init := Split(s);
    if |b| == 0 {
      assert s + b == s && init[|init| - 1] + b == init[|init| - 1];
      assert init[..|init| - 1] + [init[|init| - 1]] == init;
    } else {
      var front, c := b[..|b| - 1], b[|b| - 1];
      assert b == front + [c];
      assert ',' !in front;
      SplitExtend(s, front);
      SplitSnoc(s + front, c);
      assert s + b == (s + front) + [c];
      var last := init[|init| - 1] + front;
      var mid := init[..|init| - 1] + [last];
      assert mid[..|mid| - 1] == init[..|init| - 1];
      assert last + [c] == init[|init| - 1] + b;
    }
  }

  /** The pieces joined with commas between them. */
  function JoinCommas(ps: seq<string>): string
  {
    if |ps| == 0 then "" else if |ps| == 1 then ps[0] else JoinCommas(ps[..|ps| - 1]) + "," + ps[|ps| - 1]
  }

  /** Joining the pieces back with commas gives the string that was split. */
  lemma {:induction false} JoinSplit(s: string)
    ensures JoinCommas(Split(s)) == s
  {
    if |s| > 0 {
      var front, c := s[..|s| - 1], s[|s| - 1];
      var init := Split(front);
      JoinSplit(front);
      assert s == front + [c];
      if c == ',' {
        var ps := init + [""];
        assert Split(s) == ps;
        assert ps[..|ps| - 1] == init;
        assert JoinCommas(ps) == JoinCommas(init) + ",";
      } else {
        assert Split(s) == init[..|init| - 1] + [init[|init| - 1] + [c]];
        JoinLast(init, c);
      }
    }
  }

  /** Adding a character to the last piece adds it at the end of the joined string. */
  lemma JoinLast(ps: seq<string>, c: char)
    requires |ps| >= 1
    ensures JoinCommas(ps[..|ps| - 1] + [ps[|ps| - 1] + [c]]) == JoinCommas(ps) + [c]
  {
    var qs := ps[..|ps| - 1] + [ps[|ps| - 1] + [c]];
    assert qs[..|qs| - 1] == ps[..|ps| - 1];
  }

  /** What `QString::SkipEmptyParts` keeps: the pieces that are not empty, in order. */
  function NonEmpty(ps: seq<string>): (r: seq<string>)
    ensures forall p :: p in r <==> p in ps && p != ""
    ensures |r| <= |ps|
  {
    if |ps| == 0 then []
    else
      var r := NonEmpty(ps[..|ps| - 1]);
      assert forall p :: p in ps <==> p in ps[..|ps| - 1] || p == ps[|ps| - 1];
      if ps[|ps| - 1] == "" then r else r + [ps[|ps| - 1]]
  }

  /** `operator<` on two strings: the first differing character decides, and a proper prefix comes first. */
  predicate Below(a: string, b: string)
  {
    if |a| == 0 then |b| > 0
    else |b| > 0 && (a[0] < b[0] || (a[0] == b[0] && Below(a[1..], b[1..])))
  }

  /** No string comes before itself. */
  lemma {:induction false} BelowIrreflexive(a: string)
    ensures !Below(a, a)
  {
    if |a| > 0 {
      BelowIrreflexive(a[1..]);
    }
  }

  /** The order is transitive. */
  lemma {:induction false} BelowTransitive(a: string, b: string, c: string)
    requires Below(a, b) && Below(b, c)
    ensures Below(a, c)
  {
    if |a| > 0 && a[0] == b[0] && b[0] == c[0] {
      BelowTransitive(a[1..], b[1..], c[1..]);
    }
  }

  /** Of two different strings, one comes before the other. */
  lemma {:induction false} BelowTotal(a: string, b: string)
    requires a != b
    ensures Below(a, b) || Below(b, a)
  {
    if |a| > 0 && |b| > 0 && a[0] == b[0] {
      assert a == [a[0]] + a[1..] && b == [b[0]] + b[1..];
      BelowTotal(a[1..], b[1..]);
    }
  }

  /** Strictly ascending: each string comes before every later one. */
  ghost predicate Ascending(r: seq<string>)
  {
    forall i, j :: 0 <= i < j < |r| ==> Below(r[i], r[j])
  }

  /** The least string of a non-empty set. */
  method Least(s: set<string>) returns (k: string)
    requires s != {}
    ensures k in s && forall t :: t in s && t != k ==> Below(k, t)
  {
    k :| k in s;
    var rest := s - {k};
    while rest != {}
      invariant rest <= s && k in s && k !in rest
      invariant forall t :: t in s && t !in rest && t != k ==> Below(k, t)
      decreases |rest|
    {
      var t :| t in rest;
      if Below(t, k) {
        forall u | u in s && u !in rest && u != k && u != t
          ensures Below(t, u)
        {
          BelowTransitive(t, k, u);
        }
        k := t;
      } else {
        BelowTotal(k, t);
      }
      rest := rest - {t};
    }
  }

  /** The strings of a finite set in ascending order, each once, as `QMap::keys()` lists them. */
  method SortedKeys(s: set<string>) returns (r: seq<string>)
    ensures (forall t :: t in r <==> t in s) && |r| == |s| && Ascending(r)
  {
    r := [];
    var rest := s;
    while rest != {}
      invariant rest <= s && forall t :: t in s <==> t in rest || t in r
      invariant |r| + |rest| == |s| && Ascending(r)
      invariant forall i, t :: 0 <= i < |r| && t in rest ==> Below(r[i], t)
      decreases |rest|
    {
      var k := Least(rest);
      forall i | 0 <= i < |r|
        ensures r[i] !in rest
      {
        if r[i] in rest {
          BelowIrreflexive(r[i]);
        }
      }
      r := r + [k];
      rest := rest - {k};
    }
  }
}
