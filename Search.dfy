/**
 * The four searches over the store's records, the check that runs before
 * each of them, and the line of text that reports what was found.
 */
module Search {
  import opened Wrappers
  import opened Strings
  import opened Numbers
  import opened FileRecords
  import opened QueryParser

  /** Whether a search may go ahead, or the message it is stopped with. */
  datatype Gate = Proceed | Reject(message: string)

  /** What a search hands back: the records found and the query line. */
  datatype Outcome = Outcome(entries: seq<FileRecord>, query: string)

  /**
   * `pre_query_check`: an empty store stops every search, whatever the
   * query; otherwise an empty query stops it.
   */
  function PreQueryCheck(records: seq<FileRecord>, searched: string): (g: Gate)
    ensures g == Proceed <==> records != [] && searched != ""
    ensures records == [] ==> g == Reject("Empty database.")
    ensures records != [] && searched == "" ==> g == Reject("Empty query.")
  {
    if |records| == 0 then Reject("Empty database.")
    else if searched == "" then Reject("Empty query.")
    else Proceed
  }

  /** `format_query`: "<n> entries" for more than one, "<n> entry" for 0 or 1. */
  function FormatQuery(n: nat, q: string): (r: string)
    ensures |NatToString(n)| < |r| && r[..|NatToString(n)|] == NatToString(n)
    ensures n > 1 ==> r == NatToString(n) + " entries found for (" + q + ")"
    ensures n <= 1 ==> r == NatToString(n) + " entry found for (" + q + ")"
  {
    var a := NatToString(n);
    assert (a + Wording(n, q))[..|a|] == a;
    a + Wording(n, q)
  }

  /** The digits the line opens with are exactly the count's, and read back as the count. */
  lemma FormatQueryCount(n: nat, q: string)
    ensures var r := FormatQuery(n, q);
      DigitRun(r) == |NatToString(n)| && AllDigits(r[..DigitRun(r)]) && DigitsValue(r[..DigitRun(r)]) == n
  {
    var a := NatToString(n);
    DigitRunPrefix(a, Wording(n, q));
    NatToStringValue(n);
  }

  /** What follows the count: the noun, singular or plural, and the query. */
  function Wording(n: nat, q: string): (r: string)
    ensures |r| > 0 && r[0] == ' '
    ensures EndsWith(r, "(" + q + ")")
  {
    (if n > 1 then " entries found for (" else " entry found for (") + q + ")"
  }

  /** For one count, the wording determines the query. */
  lemma WordingInjective(n: nat, p: string, q: string)
    requires Wording(n, p) == Wording(n, q)
    ensures p == q
  {
    var w := if n > 1 then " entries found for (" else " entry found for (";
    assert Wording(n, p) == w + (p + ")") && Wording(n, q) == w + (q + ")");
    SplitEqual(w, p + ")", w, q + ")");
    SplitEqual(p, ")", q, ")");
  }

  /** One entry is written in the singular. */
  lemma FormatQuerySingular()
    ensures FormatQuery(1, "x") == "1 entry found for (x)"
  {
  }

  /** So is no entry at all. */
  lemma FormatQueryNone()
    ensures FormatQuery(0, "x") == "0 entry found for (x)"
  {
  }

  /** More than one entry is written in the plural. */
  lemma FormatQueryPlural()
    ensures FormatQuery(12, "x") == "12 entries found for (x)"
  {
    assert NatToString(12) == "12" by {
      assert NatToString(1) == "1";
      assert DigitChar(2) == '2';
    }
  }

  /** The length of the run of digits `s` starts with. */
  function DigitRun(s: string): (n: nat)
    ensures n <= |s|
  {
    if |s| == 0 || !IsDigit(s[0]) then 0 else 1 + DigitRun(s[1..])
  }

  /** Digits followed by a non-digit: the run is exactly the digits. */
  lemma {:induction false} DigitRunPrefix(a: string, rest: string)
    requires AllDigits(a) && |rest| > 0 && !IsDigit(rest[0])
    ensures DigitRun(a + rest) == |a|
  {
    if |a| > 0 {
      assert (a + rest)[1..] == a[1..] + rest;
      DigitRunPrefix(a[1..], rest);
    } else {
      assert a + rest == rest;
    }
  }

  /**
   * The line determines the count and the query: two lines are equal only
   * when both were made from the same count and the same query.
   */
  lemma FormatQueryInjective(m: nat, p: string, n: nat, q: string)
    requires FormatQuery(m, p) == FormatQuery(n, q)
    ensures m == n && p == q
  {
    var a, b := NatToString(m), NatToString(n);
    var x, y := Wording(m, p), Wording(n, q);
    DigitRunPrefix(a, x);
    DigitRunPrefix(b, y);
    SplitEqual(a, x, b, y);
    NatToStringInjective(m, n);
    WordingInjective(m, p, q);
  }

  /** Two equal concatenations whose first parts have one length agree part by part. */
  lemma SplitEqual(a: string, x: string, b: string, y: string)
    requires a + x == b + y && |a| == |b|
    ensures a == b && x == y
  {
    assert a == (a + x)[..|a|];
    assert b == (b + y)[..|b|];
    assert x == (a + x)[|a|..];
    assert y == (b + y)[|b|..];
  }

  /**
   * The records kept by `keep`. As with a filtered query, each record is
   * found as often as it is stored when it passes, and not at all otherwise.
   */
  function Select(records: seq<FileRecord>, keep: FileRecord -> bool): (r: seq<FileRecord>)
    ensures forall x :: multiset(r)[x] == if keep(x) then multiset(records)[x] else 0
  {
    if records == [] then []
    else
      var rest := Select(records[1..], keep);
      assert records == [records[0]] + records[1..];
      if keep(records[0]) then [records[0]] + rest else rest
  }

  /** A record and its complement split the records between them. */
  lemma {:induction false} SelectComplement(records: seq<FileRecord>, keep: FileRecord -> bool,
                                            drop: FileRecord -> bool)
    requires forall x :: drop(x) == !keep(x)
    ensures |Select(records, keep)| + |Select(records, drop)| == |records|
  {
    if records != [] {
      SelectComplement(records[1..], keep, drop);
    }
  }

  /** `search_name`: the records whose file name contains the query. */
  function SearchName(records: seq<FileRecord>, searched: string): (o: Outcome)
    ensures PreQueryCheck(records, searched).Reject? ==>
      o == Outcome([], PreQueryCheck(records, searched).message)
    ensures PreQueryCheck(records, searched) == Proceed ==>
      (forall x :: multiset(o.entries)[x] ==
        if Contains(x.fileName, searched) then multiset(records)[x] else 0)
      && o.query == FormatQuery(|o.entries|, searched + " contained in FileName")
  {
    match PreQueryCheck(records, searched)
    case Reject(message) => Outcome([], message)
    case Proceed =>
      var found := Select(records, (x: FileRecord) => Contains(x.fileName, searched));
      Outcome(found, FormatQuery(|found|, searched + " contained in FileName"))
  }

  /** `search_path`: the records whose path (name already deleted) contains the query. */
  function SearchPath(records: seq<FileRecord>, searched: string): (o: Outcome)
    ensures PreQueryCheck(records, searched).Reject? ==>
      o == Outcome([], PreQueryCheck(records, searched).message)
    ensures PreQueryCheck(records, searched) == Proceed ==>
      (forall x :: multiset(o.entries)[x] ==
        if Contains(x.filePath, searched) then multiset(records)[x] else 0)
      && o.query == FormatQuery(|o.entries|, searched + " contained in FilePath")
  {
    match PreQueryCheck(records, searched)
    case Reject(message) => Outcome([], message)
    case Proceed =>
      var found := Select(records, (x: FileRecord) => Contains(x.filePath, searched));
      Outcome(found, FormatQuery(|found|, searched + " contained in FilePath"))
  }

  /** The query with one leading `.` removed, if it has one. */
  function StripDot(searched: string): (e: string)
    ensures |searched| > 0 && searched[0] == '.' ==> searched == "." + e
    ensures !(|searched| > 0 && searched[0] == '.') ==> e == searched
  {
    if |searched| > 0 && searched[0] == '.' then searched[1..] else searched
  }

  /** `search_extension`: the records whose extension is exactly the query, less one leading dot. */
  function SearchExtension(records: seq<FileRecord>, searched: string): (o: Outcome)
    ensures PreQueryCheck(records, searched).Reject? ==>
      o == Outcome([], PreQueryCheck(records, searched).message)
    ensures PreQueryCheck(records, searched) == Proceed ==>
      (forall x :: multiset(o.entries)[x] ==
        if x.fileExtension == StripDot(searched) then multiset(records)[x] else 0)
      && o.query == FormatQuery(|o.entries|, StripDot(searched) + " for FileExtension")
  {
    match PreQueryCheck(records, searched)
    case Reject(message) => Outcome([], message)
    case Proceed =>
      var e := StripDot(searched);
      var found := Select(records, (x: FileRecord) => x.fileExtension == e);
      Outcome(found, FormatQuery(|found|, e + " for FileExtension"))
  }

  /** ".txt" and "txt" find the same records and report the same line. */
  lemma SearchExtensionDot(records: seq<FileRecord>, e: string)
    requires e != "" && e[0] != '.'
    ensures SearchExtension(records, "." + e) == SearchExtension(records, e)
  {
    assert ("." + e)[1..] == e;
  }

  /**
   * Over loaded records, searching for an extension without a dot finds the
   * records whose file name is that extension, or ends with a dot and that
   * extension.
   */
  lemma SearchExtensionByName(records: seq<FileRecord>, e: string)
    requires forall i :: 0 <= i < |records| ==> Consistent(records[i])
    requires e != "" && '.' !in e
    ensures forall x :: x in SearchExtension(records, e).entries <==>
      x in records && (x.fileName == e || EndsWith(x.fileName, "." + e))
  {
    assert StripDot(e) == e;
    var o := SearchExtension(records, e);
    forall x | x in records
      ensures x.fileExtension == e <==> (x.fileName == e || EndsWith(x.fileName, "." + e))
    {
      ExtensionIff(x.fileName, e);
    }
    forall x
      ensures x in o.entries <==> x in records && (x.fileName == e || EndsWith(x.fileName, "." + e))
    {
      assert x in o.entries <==> multiset(o.entries)[x] > 0;
      assert x in records <==> multiset(records)[x] > 0;
    }
  }

  /** The comparison each operator stands for. */
  predicate Satisfies(op: string, size: nat, d: nat)
    ensures Satisfies(op, size, d) ==> op in Operators
  {
    match op
    case "==" => size == d
    case "<" => size < d
    case "<=" => size <= d
    case ">" => size > d
    case ">=" => size >= d
    case _ => false
  }

  /**
   * `apply_size_operator`: the records whose byte size satisfies the
   * comparison; an operator it does not know finds nothing.
   */
  function ApplySizeOperator(records: seq<FileRecord>, op: string, d: nat): (r: seq<FileRecord>)
    ensures forall x :: multiset(r)[x] == (if Satisfies(op, x.uniformSize, d) then multiset(records)[x] else 0)
    ensures op !in Operators ==> r == []
  {
    if op in Operators then Select(records, (x: FileRecord) => Satisfies(op, x.uniformSize, d))
    else []
  }

  /** Two operators that answer every comparison oppositely split the records between them. */
  lemma ApplySizeOperatorComplement(records: seq<FileRecord>, op: string, co: string, d: nat)
    requires op in Operators && co in Operators
    requires forall size: nat :: Satisfies(co, size, d) == !Satisfies(op, size, d)
    ensures |ApplySizeOperator(records, op, d)| + |ApplySizeOperator(records, co, d)| == |records|
  {
    SelectComplement(records, (x: FileRecord) => Satisfies(op, x.uniformSize, d),
                     (x: FileRecord) => Satisfies(co, x.uniformSize, d));
  }

  /** "<" and ">=", and "<=" and ">", split the records between them. */
  lemma ApplySizeOperatorPartition(records: seq<FileRecord>, d: nat)
    ensures |ApplySizeOperator(records, "<", d)| + |ApplySizeOperator(records, ">=", d)| == |records|
    ensures |ApplySizeOperator(records, "<=", d)| + |ApplySizeOperator(records, ">", d)| == |records|
  {
    assert Operators[1] == "<=" && Operators[2] == "<" && Operators[3] == ">=" && Operators[4] == ">";
    ApplySizeOperatorComplement(records, "<", ">=", d);
    ApplySizeOperatorComplement(records, "<=", ">", d);
  }

  /** `search_size`: the records whose size satisfies the query's comparison. */
  function SearchSize(records: seq<FileRecord>, searched: string): (o: Outcome)
    ensures PreQueryCheck(records, searched).Reject? ==>
      o == Outcome([], PreQueryCheck(records, searched).message)
    ensures PreQueryCheck(records, searched) == Proceed && ExtractOperator(searched).Failure? ==>
      o == Outcome([], "Error - Query not formatted correctly.")
    ensures PreQueryCheck(records, searched) == Proceed && ExtractOperator(searched).Success? ==>
      var (op, d) := ExtractOperator(searched).value;
      (forall x :: multiset(o.entries)[x] ==
        if Satisfies(op, x.uniformSize, d) then multiset(records)[x] else 0)
      && o.query == FormatQuery(|o.entries|, searched + " for FileExtension")
  {
    match PreQueryCheck(records, searched)
    case Reject(message) => Outcome([], message)
    case Proceed =>
      match ExtractOperator(searched)
      case Failure(_) => Outcome([], "Error - Query not formatted correctly.")
      case Success((op, d)) =>
        var found := ApplySizeOperator(records, op, d);
        Outcome(found, FormatQuery(|found|, searched + " for FileExtension"))
  }

  /** A query that is read as `op` and `d` finds exactly the records whose size satisfies `op` against `d`. */
  lemma SearchSizeFinds(records: seq<FileRecord>, searched: string, op: string, d: nat)
    requires PreQueryCheck(records, searched) == Proceed
    requires ExtractOperator(searched) == Success((op, d))
    ensures forall x :: x in SearchSize(records, searched).entries <==>
      x in records && Satisfies(op, x.uniformSize, d)
  {
    var o := SearchSize(records, searched);
    forall x ensures x in o.entries <==> x in records && Satisfies(op, x.uniformSize, d) {
      assert x in o.entries <==> multiset(o.entries)[x] > 0;
      assert x in records <==> multiset(records)[x] > 0;
    }
  }

  /** The worked query "> 2M" finds the records of more than two million bytes. */
  lemma SearchSizeExample(records: seq<FileRecord>)
    ensures forall x :: x in SearchSize(records, "> 2M").entries <==>
      x in records && x.uniformSize > 2000000
  {
    if records != [] {
      ExtractOperatorExample();
      SearchSizeFinds(records, "> 2M", ">", 2000000);
    }
  }

  /** A query with no `<`, no `>` and no "==" is refused, and nothing is found. */
  lemma SearchSizeNoOperator(records: seq<FileRecord>, searched: string)
    requires records != [] && searched != ""
    requires '<' !in searched && '>' !in searched && !Contains(searched, "==")
    ensures SearchSize(records, searched) == Outcome([], "Error - Query not formatted correctly.")
  {
    ChooseOperatorNone(searched);
  }
}
