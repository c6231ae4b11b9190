/**
 * The roster of the kindergarten: the children known to the bot, and the
 * three matching queries that the conversation consults before it lets a
 * report go further. Also the loader that turns the roster file (already
 * split into rows of fields) into a list of children.
 */
module Roster {

  /** One roster entry, or the candidate a conversation is filling in.
      Every field is compared by exact string equality. */
  datatype Child = Child(group: string, lastName: string, firstName: string, bd: string)
  {
    /** Same group and last name as `other`. */
    predicate MatchesThroughLastName(other: Child) {
      group == other.group && lastName == other.lastName
    }

    /** Same group, last name and first name as `other`. */
    predicate MatchesThroughFirstName(other: Child) {
      MatchesThroughLastName(other) && firstName == other.firstName
    }

    /** All four fields agree with `other`. */
    predicate MatchesAll(other: Child) {
      MatchesThroughFirstName(other) && bd == other.bd
    }

    /** `check_last_name`: some roster entry has this group and last name.
        The scan stops at the first hit. */
    function CheckLastName(children: seq<Child>): (r: bool)
      ensures r <==> exists i :: 0 <= i < |children| && MatchesThroughLastName(children[i])
    {
      if children == [] then false
      else if MatchesThroughLastName(children[0]) then true
      else CheckLastName(children[1..])
    }

    /** `check_first_name`: some roster entry has this group, last name and first name. */
    function CheckFirstName(children: seq<Child>): (r: bool)
      ensures r <==> exists i :: 0 <= i < |children| && MatchesThroughFirstName(children[i])
    {
      if children == [] then false
      else if MatchesThroughFirstName(children[0]) then true
      else CheckFirstName(children[1..])
    }

    /** `check_bd`: some roster entry agrees with this candidate on all four fields. */
    function CheckBd(children: seq<Child>): (r: bool)
      ensures r <==> exists i :: 0 <= i < |children| && MatchesAll(children[i])
    {
      if children == [] then false
      else if MatchesAll(children[0]) then true
      else CheckBd(children[1..])
    }
  }

  /** Agreement on all four fields is identity, so the full check is roster membership. */
  lemma CheckBdIsMembership(c: Child, children: seq<Child>)
    ensures c.CheckBd(children) <==> c in children
  {
    if c in children {
      var i :| 0 <= i < |children| && children[i] == c;
      assert c.MatchesAll(children[i]);
    }
  }

  /** Each check narrows the previous one: a full match implies a first-name
      match, which implies a last-name match, on the same roster. */
  lemma MonotoneNarrowing(c: Child, children: seq<Child>)
    ensures c.CheckBd(children) ==> c.CheckFirstName(children)
    ensures c.CheckFirstName(children) ==> c.CheckLastName(children)
  {
    if c.CheckBd(children) {
      var i :| 0 <= i < |children| && c.MatchesAll(children[i]);
      assert c.MatchesThroughFirstName(children[i]);
    }
    if c.CheckFirstName(children) {
      var i :| 0 <= i < |children| && c.MatchesThroughFirstName(children[i]);
      assert c.MatchesThroughLastName(children[i]);
    }
  }

  /** Once the first-name check fails, no birth date can make the full check succeed. */
  lemma FirstNameMismatchIsFinal(c: Child, children: seq<Child>, bd: string)
    requires !c.CheckFirstName(children)
    ensures !c.(bd := bd).CheckBd(children)
  {
    MonotoneNarrowing(c.(bd := bd), children);
  }

  /** Once the last-name check fails, no first name and no birth date can
      make the later checks succeed. */
  lemma LastNameMismatchIsFinal(c: Child, children: seq<Child>, firstName: string, bd: string)
    requires !c.CheckLastName(children)
    ensures !c.(firstName := firstName).CheckFirstName(children)
    ensures !c.(firstName := firstName, bd := bd).CheckBd(children)
  {
    MonotoneNarrowing(c.(firstName := firstName), children);
    MonotoneNarrowing(c.(firstName := firstName, bd := bd), children);
  }

  /** Every element of `a` occurs in `b` when the two hold the same multiset. */
  lemma SameElements(a: seq<Child>, b: seq<Child>, i: int)
    requires multiset(a) == multiset(b)
    requires 0 <= i < |a|
    ensures exists j :: 0 <= j < |b| && b[j] == a[i]
  {
    assert a[i] in multiset(a);
    assert a[i] in b;
  }

  /** None of the checks depends on the order of the roster. */
  lemma OrderIndependent(c: Child, a: seq<Child>, b: seq<Child>)
    requires multiset(a) == multiset(b)
    ensures c.CheckLastName(a) == c.CheckLastName(b)
    ensures c.CheckFirstName(a) == c.CheckFirstName(b)
    ensures c.CheckBd(a) == c.CheckBd(b)
  {
    forall i | 0 <= i < |a|
      ensures exists j :: 0 <= j < |b| && b[j] == a[i]
    {
      SameElements(a, b, i);
    }
    forall j | 0 <= j < |b|
      ensures exists i :: 0 <= i < |a| && a[i] == b[j]
    {
      SameElements(b, a, j);
    }
  }

  /** An empty roster matches nothing. */
  lemma EmptyRosterMatchesNothing(c: Child)
    ensures !c.CheckLastName([]) && !c.CheckFirstName([]) && !c.CheckBd([])
  {
  }

  // ---------------------------------------------------------------------
  // Loading the roster

  /** A row of the roster file, already split into its fields. */
  type Row = seq<string>

  /** Why loading failed: the source has no first line to skip (`next` on an
      empty file), or a record row has fewer than four fields (`row[3]`). */
  datatype LoadError = MissingHeader | ShortRow(line: nat)

  datatype Result<T> = Ok(value: T) | Err(error: LoadError)

  /** The child a row describes: columns 0 to 3, positionally; further columns are ignored. */
  function ChildOfRow(row: Row): Child
    requires |row| >= 4
  {
    Child(row[0], row[1], row[2], row[3])
  }

  /** What loading lines 1 .. n-1 yields (line 0 is the skipped header). */
  function ParsePrefix(lines: seq<Row>, n: nat): Result<seq<Child>>
    requires 1 <= n <= |lines|
  {
    if n == 1 then Ok([])
    else
      match ParsePrefix(lines, n - 1)
      case Err(e) => Err(e)
      case Ok(cs) =>
        if |lines[n - 1]| < 4 then Err(ShortRow(n - 1))
        else Ok(cs + [ChildOfRow(lines[n - 1])])
  }

  /** What loading the whole source yields. */
  function Parse(lines: seq<Row>): Result<seq<Child>> {
    if lines == [] then Err(MissingHeader) else ParsePrefix(lines, |lines|)
  }

  /** Once a prefix fails, every longer prefix fails with the same error. */
  lemma {:induction false} ParsePrefixErrSticks(lines: seq<Row>, n: nat, m: nat)
    requires 1 <= n <= m <= |lines|
    requires ParsePrefix(lines, n).Err?
    ensures ParsePrefix(lines, m) == ParsePrefix(lines, n)
  {
    if m > n {
      ParsePrefixErrSticks(lines, n, m - 1);
    }
  }

  /** Loading lines 1 .. n-1 succeeds exactly when each of those rows has four
      fields, and then gives one child per row, in order, taken positionally;
      otherwise it reports the first short row. */
  lemma {:induction false} ParsePrefixMeaning(lines: seq<Row>, n: nat)
    requires 1 <= n <= |lines|
    ensures ParsePrefix(lines, n).Ok? <==> forall k :: 1 <= k < n ==> |lines[k]| >= 4
    ensures ParsePrefix(lines, n).Ok? ==>
      var cs := ParsePrefix(lines, n).value;
      |cs| == n - 1 && forall k :: 1 <= k < n ==> cs[k - 1] == ChildOfRow(lines[k])
    ensures ParsePrefix(lines, n).Err? ==>
      ParsePrefix(lines, n).error.ShortRow? &&
      var line := ParsePrefix(lines, n).error.line;
      1 <= line < n && |lines[line]| < 4 && forall k :: 1 <= k < line ==> |lines[k]| >= 4
  {
    if n > 1 {
      ParsePrefixMeaning(lines, n - 1);
    }
  }

  /** The loader's contract: it needs a first line to skip; then it succeeds
      exactly when every later row has at least four fields, returning one
      child per row in file order; otherwise it fails at the first short row. */
  lemma ParseMeaning(lines: seq<Row>)
    ensures lines == [] ==> Parse(lines) == Err(MissingHeader)
    ensures Parse(lines).Ok? <==> lines != [] && forall k :: 1 <= k < |lines| ==> |lines[k]| >= 4
    ensures Parse(lines).Ok? ==>
      |Parse(lines).value| == |lines| - 1 &&
      forall k :: 1 <= k < |lines| ==> Parse(lines).value[k - 1] == ChildOfRow(lines[k])
    ensures lines != [] && Parse(lines).Err? ==>
      Parse(lines).error.ShortRow? &&
      var line := Parse(lines).error.line;
      1 <= line < |lines| && |lines[line]| < 4 && forall k :: 1 <= k < line ==> |lines[k]| >= 4
  {
    if lines != [] {
      ParsePrefixMeaning(lines, |lines|);
    }
  }

  /** `parse_csv_file` over rows already split into fields: skip the first
      line, then append one child per remaining row; a short row aborts. */
  method ParseCsvFile(lines: seq<Row>) returns (r: Result<seq<Child>>)
    ensures r == Parse(lines)
  {
    if lines == [] {
      return Err(MissingHeader);
    }
    var children: seq<Child> := [];
    var i := 1;
    while i < |lines|
      invariant 1 <= i <= |lines|
      invariant ParsePrefix(lines, i) == Ok(children)
    {
      var row := lines[i];
      if |row| < 4 {
        ParsePrefixErrSticks(lines, i + 1, |lines|);
        return Err(ShortRow(i));
      }
      children := children + [ChildOfRow(row)];
      i := i + 1;
    }
    r := Ok(children);
  }
}
