/** The loop by which a business or a product finds itself a slug on first save: the plain
    base, then `base-2`, `base-3`, until one is free. */
module Slug {

  // ----- Decimal suffixes -----

  function Decimal(n: nat): (s: string)
    ensures s != ""
  {
    var digit := ('0' as int + n % 10) as char;
    if n < 10 then [digit] else Decimal(n / 10) + [digit]
  }

  function Parse(s: string): int {
    if s == "" then 0 else 10 * Parse(s[..|s| - 1]) + (s[|s| - 1] as int - '0' as int)
  }

  /** Printing a number loses nothing. */
  lemma {:induction false} ParseOfDecimal(n: nat)
    ensures Parse(Decimal(n)) == n
  {
    var digit := ('0' as int + n % 10) as char;
    if n < 10 {
      assert Parse("") == 0 && [digit][..0] == "";
    } else {
      ParseOfDecimal(n / 10);
      assert Decimal(n)[..|Decimal(n)| - 1] == Decimal(n / 10);
    }
  }

  predicate IsDigit(c: char) {
    '0' <= c <= '9'
  }

  /** A number written in decimal digits, without a leading zero. */
  predicate Numeral(s: string) {
    s != "" && (|s| > 1 ==> s[0] != '0') && forall i :: 0 <= i < |s| ==> IsDigit(s[i])
  }

  lemma {:induction false} DecimalIsNumeral(n: nat)
    ensures Numeral(Decimal(n)) && (Decimal(n)[0] == '0' <==> n == 0)
  {
    if n >= 10 {
      DecimalIsNumeral(n / 10);
    }
  }

  /** Every numeral is the print of the number it stands for. */
  lemma {:induction false} DecimalOfParse(s: string)
    requires Numeral(s)
    ensures Parse(s) >= 0 && (Parse(s) == 0 <==> s == "0") && Decimal(Parse(s)) == s
    decreases |s|
  {
    var n := |s| - 1;
    var last := s[n] as int - '0' as int;
    assert s == s[..n] + [s[n]];
    if n > 0 {
      assert Numeral(s[..n]);
      DecimalOfParse(s[..n]);
      assert s[..n] != "0" by {
        assert s[..n][0] == s[0];
      }
      assert Parse(s) == 10 * Parse(s[..n]) + last;
      assert Parse(s) / 10 == Parse(s[..n]) && Parse(s) % 10 == last;
    } else {
      assert s[..n] == "" && Parse("") == 0;
    }
  }

  // ----- Candidates -----

  /** What the loop tries when its counter stands at `idx`. */
  function Candidate(base: string, idx: nat): string {
    if idx == 1 then base else base + "-" + Decimal(idx)
  }

  lemma CandidatesDiffer(base: string, i: nat, j: nat)
    requires 1 <= i < j
    ensures Candidate(base, i) != Candidate(base, j)
  {
    if i == 1 {
      assert |Candidate(base, j)| > |base|;
    } else if Candidate(base, i) == Candidate(base, j) {
      var n := |base + "-"|;
      assert Candidate(base, i)[n..] == Decimal(i) && Candidate(base, j)[n..] == Decimal(j);
      ParseOfDecimal(i);
      ParseOfDecimal(j);
      assert false;
    }
  }

  /** As the candidates differ, only so many of them can be taken. */
  lemma {:induction false} TakenCandidatesAreFew(base: string, n: nat, taken: set<string>)
    requires forall j: nat :: 1 <= j <= n ==> Candidate(base, j) in taken
    ensures n <= |taken|
  {
    if n > 0 {
      forall j: nat | 1 <= j < n
        ensures Candidate(base, j) in taken - {Candidate(base, n)}
      {
        CandidatesDiffer(base, j, n);
      }
      TakenCandidatesAreFew(base, n - 1, taken - {Candidate(base, n)});
    }
  }

  /** A free slug with the smallest suffix, found in at most one probe more than there are
      slugs taken. */
  ghost predicate FirstFree(slug: string, base: string, taken: set<string>, idx: nat) {
    && 1 <= idx <= |taken| + 1 && slug == Candidate(base, idx) && slug !in taken
    && forall j: nat :: 1 <= j < idx ==> Candidate(base, j) in taken
  }

  ghost predicate IsFirstFree(slug: string, base: string, taken: set<string>) {
    exists idx: nat :: FirstFree(slug, base, taken, idx)
  }

  lemma FirstFreeIsUnique(base: string, taken: set<string>, s: string, t: string)
    requires IsFirstFree(s, base, taken) && IsFirstFree(t, base, taken)
    ensures s == t
  {
    var i: nat :| FirstFree(s, base, taken, i);
    var j: nat :| FirstFree(t, base, taken, j);
    assert i < j ==> s in taken;
    assert j < i ==> t in taken;
  }

  /** What the loop finds, said of the strings: the base when it is free, and otherwise the
      base with the smallest numeral from 2 on that makes it free. */
  lemma FirstFreeIs(slug: string, base: string, taken: set<string>)
    requires IsFirstFree(slug, base, taken)
    ensures slug !in taken && (base !in taken ==> slug == base)
    ensures base in taken ==>
              exists n: string :: && Numeral(n) && Parse(n) >= 2 && slug == base + "-" + n
                                  && SmallerAreTaken(base, taken, n)
  {
    var idx: nat :| FirstFree(slug, base, taken, idx);
    assert idx > 1 ==> Candidate(base, 1) in taken;
    if base in taken {
      var n := Decimal(idx);
      DecimalIsNumeral(idx);
      ParseOfDecimal(idx);
      forall m: string | Numeral(m) && 2 <= Parse(m) < Parse(n)
        ensures base + "-" + m in taken
      {
        DecimalOfParse(m);
        assert Candidate(base, Parse(m)) in taken;
      }
      assert SmallerAreTaken(base, taken, n);
    }
  }

  ghost predicate SmallerAreTaken(base: string, taken: set<string>, n: string) {
    forall m: string :: Numeral(m) && 2 <= Parse(m) < Parse(n) ==> base + "-" + m in taken
  }

  method FindSlug(base: string, taken: set<string>) returns (candidate: string)
    ensures IsFirstFree(candidate, base, taken)
  {
    candidate := base;
    var idx := 1;
    while candidate in taken
      invariant 1 <= idx && candidate == Candidate(base, idx)
      invariant forall j: nat :: 1 <= j < idx ==> Candidate(base, j) in taken
      decreases |taken| + 1 - idx
    {
      TakenCandidatesAreFew(base, idx, taken);
      idx := idx + 1;
      candidate := base + "-" + Decimal(idx);
    }
    TakenCandidatesAreFew(base, idx - 1, taken);
    assert FirstFree(candidate, base, taken, idx);
  }

  // ----- Saving -----

  /** `scope` is what slugs are unique within: the owning business for a product, and one
      and the same for every business. */
  datatype Row = Row(scope: nat, slug: string)

  /** The slugs of other rows in the scope. */
  function Taken(rows: map<nat, Row>, pk: nat, scope: nat): set<string> {
    set k | k in rows && k != pk && rows[k].scope == scope :: rows[k].slug
  }

  /** A slug is taken by another row of the same scope, never by the row being saved. */
  lemma TakenMeans(rows: map<nat, Row>, pk: nat, scope: nat, slug: string)
    ensures slug in Taken(rows, pk, scope) <==> exists k :: k in rows && k != pk && rows[k] == Row(scope, slug)
  {
    if slug in Taken(rows, pk, scope) {
      var k :| k in rows && k != pk && rows[k].scope == scope && rows[k].slug == slug;
      assert rows[k] == Row(scope, slug);
    }
  }

  ghost predicate SlugsUnique(rows: map<nat, Row>) {
    forall k, l :: k in rows && l in rows && k != l && rows[k].scope == rows[l].scope ==> rows[k].slug != rows[l].slug
  }

  class SlugTable {
    var rows: map<nat, Row>
    const fallback: string

    ghost predicate Valid()
      reads this
    {
      fallback != "" && SlugsUnique(rows) && forall k :: k in rows ==> rows[k].slug != ""
    }

    constructor (fallback: string)
      requires fallback != ""
      ensures Valid() && rows == map[] && this.fallback == fallback
    {
      this.fallback, rows := fallback, map[];
    }

    /** `slug` is what the instance carries, `slugified` the slugified name. A slug chosen
        by the loop is always accepted; one that was given is refused when it clashes. */
    method Save(pk: nat, scope: nat, slug: string, slugified: string) returns (saved: string, ok: bool)
      requires Valid()
      modifies this`rows
      ensures Valid()
      ensures var taken := Taken(old(rows), pk, scope);
              if slug != "" then saved == slug && (ok <==> slug !in taken)
              else ok && IsFirstFree(saved, if slugified == "" then fallback else slugified, taken)
      ensures rows == if ok then old(rows)[pk := Row(scope, saved)] else old(rows)
    {
      var taken := Taken(rows, pk, scope);
      saved := slug;
      if slug == "" {
        saved := FindSlug(if slugified == "" then fallback else slugified, taken);
        assert saved != "";
      }
      ok := saved !in taken;
      if ok {
        rows := rows[pk := Row(scope, saved)];
      }
    }
  }
}
