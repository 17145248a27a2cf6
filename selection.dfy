/** suggest_selection_string: the atom selection naming every residue of the
    extracted subsystem, chain by chain, built by appending terms with a
    trailing separator and cutting the last separator off. */
module Selection {
  import opened Text

  /** A chain of the subsystem: its id and its residue groups' resseq
      fields, in hierarchy order. */
  datatype Chain = Chain(id: string, resseqs: seq<string>)

  /** s[:-n] for n > 0: s without its last n characters, "" when it is
      shorter. */
  function DropLast(s: string, n: nat): (r: string)
    ensures r <= s
    ensures |r| == if n <= |s| then |s| - n else 0
  {
    if |s| < n then "" else s[..|s| - n]
  }

  /** sep.join(xs) */
  function Join(xs: seq<string>, sep: string): string {
    if xs == [] then ""
    else if |xs| == 1 then xs[0]
    else Join(xs[..|xs| - 1], sep) + sep + xs[|xs| - 1]
  }

  /** Each element followed by the separator, as the loops append them. */
  function Terminated(xs: seq<string>, sep: string): string {
    if xs == [] then "" else Terminated(xs[..|xs| - 1], sep) + (xs[|xs| - 1] + sep)
  }

  lemma Assoc(a: string, b: string, c: string)
    ensures (a + b) + c == a + (b + c)
  {
  }

  /** Cutting the trailing separator off the terminated form leaves the
      joined form. */
  lemma {:induction false} TerminatedIsJoined(xs: seq<string>, sep: string)
    requires xs != []
    ensures Terminated(xs, sep) == Join(xs, sep) + sep
  {
    if |xs| > 1 {
      TerminatedIsJoined(xs[..|xs| - 1], sep);
      var init, x := Join(xs[..|xs| - 1], sep), xs[|xs| - 1];
      Assoc(init + sep, x, sep);
    } else {
      assert xs[..0] == [];
    }
  }

  /** 'resseq ' + residue.resseq.strip() */
  function Term(resseq: string): string {
    "resseq " + Strip(resseq)
  }

  function Terms(resseqs: seq<string>): (r: seq<string>)
    ensures |r| == |resseqs|
  {
    if resseqs == [] then [] else Terms(resseqs[..|resseqs| - 1]) + [Term(resseqs[|resseqs| - 1])]
  }

  lemma TermsStep(rs: seq<string>, m: nat)
    requires m < |rs|
    ensures Terminated(Terms(rs[..m + 1]), " or ") == Terminated(Terms(rs[..m]), " or ") + ("resseq " + Strip(rs[m]) + " or ")
  {
    assert rs[..m + 1][..m] == rs[..m];
    assert Terms(rs[..m + 1]) == Terms(rs[..m]) + [Term(rs[m])];
  }

  /** The selection of one chain: its residues, or-ed, and its id. */
  function Clause(c: Chain): string {
    "((" + Join(Terms(c.resseqs), " or ") + ") and chain " + c.id + ")"
  }

  function Clauses(chains: seq<Chain>): (r: seq<string>)
    ensures |r| == |chains|
  {
    if chains == [] then [] else Clauses(chains[..|chains| - 1]) + [Clause(chains[|chains| - 1])]
  }

  /** The string the outer loop has built after the first n chains. */
  function Built(chains: seq<Chain>, n: nat): string
    requires n <= |chains|
  {
    if n == 0 then "("
    else
      var c := chains[n - 1];
      DropLast(Built(chains, n - 1) + "(" + Terminated(Terms(c.resseqs), " or "), 4) + ") and chain " + c.id + ") or ("
  }

  /** The suggested selection string: the built string without its last
      five characters. */
  function SelectionString(chains: seq<Chain>): string {
    DropLast(Built(chains, |chains|), 5)
  }

  predicate NoEmptyChain(chains: seq<Chain>) {
    forall i :: 0 <= i < |chains| ==> chains[i].resseqs != []
  }

  /** While every chain has a residue, the built string is every clause so
      far followed by " or ", then an open parenthesis. */
  lemma {:induction false} BuiltIsTerminated(chains: seq<Chain>, n: nat)
    requires n <= |chains| && NoEmptyChain(chains)
    ensures Built(chains, n) == Terminated(Clauses(chains[..n]), " or ") + "("
  {
    if n > 0 {
      BuiltIsTerminated(chains, n - 1);
      var c := chains[n - 1];
      TerminatedIsJoined(Terms(c.resseqs), " or ");
      ClausesStep(chains, n);
      CloseClause(Terminated(Clauses(chains[..n - 1]), " or "), Join(Terms(c.resseqs), " or "), c.id);
    }
  }

  lemma ClausesStep(chains: seq<Chain>, n: nat)
    requires 0 < n <= |chains|
    ensures Terminated(Clauses(chains[..n]), " or ") == Terminated(Clauses(chains[..n - 1]), " or ") + (Clause(chains[n - 1]) + " or ")
  {
    assert chains[..n][..n - 1] == chains[..n - 1];
    var cs := Clauses(chains[..n]);
    assert cs == Clauses(chains[..n - 1]) + [Clause(chains[n - 1])];
    assert cs[..n - 1] == Clauses(chains[..n - 1]);
  }

  /** One chain's step of the outer loop on plain strings: opening the
      clause, cutting the last " or " and closing it. */
  lemma CloseClause(prev: string, j: string, id: string)
    ensures DropLast(((prev + "(") + "(") + (j + " or "), 4) + ") and chain " + id + ") or (" ==
      (prev + (("((" + j + ") and chain " + id + ")") + " or ")) + "("
  {
    assert "((" == "(" + "(";
    assert ") or (" == ")" + " or " + "(";
    CloseWith(prev, j, id, "(", " or ", ") and chain ", ")");
  }

  /** The same step for any opening, separator and closing strings. */
  lemma CloseWith(prev: string, j: string, id: string, open: string, sep: string, and: string, close: string)
    ensures DropLast(((prev + open) + open) + (j + sep), |sep|) + and + id + (close + sep + open) ==
      (prev + ((open + open + j + and + id + close) + sep)) + open
  {
    var x := prev + open + open + j;
    Assoc(prev + open + open, j, sep);
    DropLastSuffix(x, sep);
    Shift(x, and, id, close, sep, open);
    Regroup(prev, open, j, and, id, close);
    Assoc(prev, open + open + j + and + id + close, sep);
  }

  lemma Shift(x: string, and: string, id: string, close: string, sep: string, open: string)
    ensures x + and + id + (close + sep + open) == ((x + and + id + close) + sep) + open
  {
    Assoc(x + and + id + close, sep, open);
    Assoc(x + and + id, close, sep + open);
    Assoc(close, sep, open);
  }

  lemma Regroup(prev: string, open: string, j: string, and: string, id: string, close: string)
    ensures prev + (open + open + j + and + id + close) == prev + open + open + j + and + id + close
  {
  }

  lemma DropLastSuffix(a: string, b: string)
    ensures DropLast(a + b, |b|) == a
  {
    assert (a + b)[..|a|] == a;
  }

  /** When every chain has a residue the suggestion is the chains' clauses
      joined by " or ", and it is empty for no chain at all. */
  lemma SelectionIsJoinedClauses(chains: seq<Chain>)
    requires NoEmptyChain(chains)
    ensures SelectionString(chains) == Join(Clauses(chains), " or ")
  {
    BuiltIsTerminated(chains, |chains|);
    assert chains[..|chains|] == chains;
    var cs := Clauses(chains);
    if cs != [] {
      TerminatedIsJoined(cs, " or ");
      assert Built(chains, |chains|) == Join(cs, " or ") + " or (";
    }
  }

  /** The resseq columns of a PDB file are padded: the terms strip them. */
  lemma PaddedTerms()
    ensures Terms(["  10", "  11"]) == ["resseq 10", "resseq 11"]
  {
    assert Strip("  10") == "10" by {
      StripSurrounded("  ", "10", "");
      assert "  10" == "  " + "10" + "";
    }
    assert Strip("  11") == "11" by {
      StripSurrounded("  ", "11", "");
      assert "  11" == "  " + "11" + "";
    }
    assert ["  10", "  11"][..1] == ["  10"];
    assert ["  10"][..0] == [];
    assert Term("  10") == "resseq 10";
    assert Term("  11") == "resseq 11";
    assert Terms(["  10"]) == [] + [Term("  10")];
  }

  lemma ClauseOfTwo(id: string, r1: string, r2: string)
    ensures Clause(Chain(id, [r1, r2])) == "((" + (Term(r1) + " or " + Term(r2)) + ") and chain " + id + ")"
  {
    assert [r1, r2][..1] == [r1];
    assert [r1][..0] == [];
    assert Terms([r1, r2]) == [Term(r1), Term(r2)];
    assert [Term(r1), Term(r2)][..1] == [Term(r1)];
    assert Join([Term(r1)], " or ") == Term(r1);
    assert Join([Term(r1), Term(r2)], " or ") == Term(r1) + " or " + Term(r2);
  }

  lemma PaddedClause()
    ensures Clause(Chain("A", ["  10", "  11"])) == "((resseq 10 or resseq 11) and chain A)"
  {
    PaddedTerms();
    ClauseOfTwo("A", "  10", "  11");
    ClauseText();
  }

  lemma ClauseText()
    ensures "((" + ("resseq 10" + " or " + "resseq 11") + ") and chain " + "A" + ")" == "((resseq 10 or resseq 11) and chain A)"
  {
  }

  /** A single chain with residues 10 and 11. */
  lemma OneChainExample()
    ensures SelectionString([Chain("A", ["  10", "  11"])]) == "((resseq 10 or resseq 11) and chain A)"
  {
    var c := Chain("A", ["  10", "  11"]);
    assert Clauses([c]) == [Clause(c)] by {
      assert [c][..0] == [];
    }
    SelectionIsJoinedClauses([c]);
    PaddedClause();
  }

  /** suggest_selection_string without its printing. */
  method SuggestSelectionString(chains: seq<Chain>) returns (s: string)
    ensures s == SelectionString(chains)
    ensures NoEmptyChain(chains) ==> s == Join(Clauses(chains), " or ")
  {
    s := "(";
    for n := 0 to |chains|
      invariant s == Built(chains, n)
    {
      var chain := chains[n];
      ghost var before := s;
      s := s + "(";
      for m := 0 to |chain.resseqs|
        invariant s == before + "(" + Terminated(Terms(chain.resseqs[..m]), " or ")
      {
        TermsStep(chain.resseqs, m);
        Assoc(before + "(", Terminated(Terms(chain.resseqs[..m]), " or "), "resseq " + Strip(chain.resseqs[m]) + " or ");
        s := s + ("resseq " + Strip(chain.resseqs[m]) + " or ");
      }
      assert chain.resseqs[..|chain.resseqs|] == chain.resseqs;
      s := DropLast(s, 4) + ") and chain " + chain.id + ") or (";
    }
    s := DropLast(s, 5);
    if NoEmptyChain(chains) {
      SelectionIsJoinedClauses(chains);
    }
  }
}
