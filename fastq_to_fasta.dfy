/**
 * `fastq_to_fasta` of fastq_to_fasta.py.  The input file is the sequence of its lines as
 * Python iterates them (each with its terminator); the output is the sequence of
 * strings written, whose concatenation is the output file.  A FASTQ record is four
 * lines; its header (line 1) is written with its first character replaced by `>` and
 * its sequence (line 2) is copied, while the `+` line and the qualities are dropped.
 */
module FastqToFasta {

  /** Python's `line[1:]`: the line without its first character, empty when it is empty. */
  function Tail(line: string): string
  {
    if line == [] then [] else line[1..]
  }

  /** The FASTA header written for a FASTQ header line. */
  function Header(line: string): string
  {
    ">" + Tail(line)
  }

  /** What the loop writes for the line whose 1-based number is `count`. */
  function OutputFor(count: nat, line: string): seq<string>
  {
    if count % 4 == 1 then [Header(line)]
    else if count % 4 == 2 then [line]
    else []
  }

  /** Everything written for `lines`, one line after another. */
  function Fasta(lines: seq<string>): seq<string>
    decreases |lines|
  {
    if lines == [] then []
    else Fasta(lines[..|lines| - 1]) + OutputFor(|lines|, lines[|lines| - 1])
  }

  method ConvertFastqToFasta(lines: seq<string>) returns (written: seq<string>)
    ensures written == Fasta(lines)
  {
    written := [];
    var lineCount := 0;
    for k := 0 to |lines|
      invariant lineCount == k
      invariant written == Fasta(lines[..k])
    {
      var line := lines[k];
      lineCount := lineCount + 1;
      assert lines[..k + 1][..k] == lines[..k];
      if lineCount % 4 == 1 {
        written := written + [Header(line)];
      } else if lineCount % 4 == 2 {
        written := written + [line];
      }
    }
    assert lines[..|lines|] == lines;
  }

  function Min(a: int, b: int): int
  {
    if a < b then a else b
  }

  /** How many lines are written for `n` input lines: two per complete record and at most
      two for a trailing partial one. */
  function Written(n: nat): nat
  {
    (n / 4) * 2 + Min(n % 4, 2)
  }

  /** The input line that output line `i` comes from: line `i % 2` of record `i / 2`. */
  function Source(i: nat): nat
  {
    4 * (i / 2) + i % 2
  }

  /** One more input line adds one output line exactly when it is line 1 or 2 of a record. */
  lemma WrittenStep(n: nat)
    ensures Written(n + 1) == Written(n) + |OutputFor(n + 1, [])|
  {
    var q, r := n / 4, n % 4;
    if r == 3 {
      assert (n + 1) / 4 == q + 1 && (n + 1) % 4 == 0;
    } else {
      assert (n + 1) / 4 == q && (n + 1) % 4 == r + 1;
    }
  }

  /** The output line added by input line `n` comes from input line `n`, and it is a
      header exactly when `n` starts a record. */
  lemma SourceOfNext(n: nat)
    requires (n + 1) % 4 == 1 || (n + 1) % 4 == 2
    ensures Source(Written(n)) == n
    ensures Written(n) % 2 == 0 <==> (n + 1) % 4 == 1
  {
    var q, r := n / 4, n % 4;
    assert n == 4 * q + r;
    assert r == 0 || r == 1;
    assert Written(n) == 2 * q + r;
  }

  lemma SourceBelow(i: nat, n: nat)
    requires i < Written(n)
    ensures Source(i) < n
  {
    var q, r := n / 4, n % 4;
    assert n == 4 * q + r;
  }

  lemma {:induction false} FastaLength(lines: seq<string>)
    ensures |Fasta(lines)| == Written(|lines|)
    decreases |lines|
  {
    if lines != [] {
      var n := |lines| - 1;
      FastaLength(lines[..n]);
      WrittenStep(n);
    }
  }

  /** Output line `i` is the header of record `i / 2` when `i` is even and that record's
      sequence line when `i` is odd. */
  lemma {:induction false} FastaAt(lines: seq<string>, i: nat)
    requires i < |Fasta(lines)|
    ensures Source(i) < |lines|
    ensures Fasta(lines)[i] == if i % 2 == 0 then Header(lines[Source(i)]) else lines[Source(i)]
    decreases |lines|
  {
    var n := |lines| - 1;
    var prefix, last := lines[..n], lines[n];
    assert lines == prefix + [last];
    FastaSnoc(prefix, last);
    FastaLength(prefix);
    if i < |Fasta(prefix)| {
      FastaAt(prefix, i);
      SourceBelow(i, n);
      assert prefix[Source(i)] == lines[Source(i)];
    } else {
      assert |OutputFor(n + 1, last)| == 1;
      assert i == Written(n);
      SourceOfNext(n);
      assert Source(i) == n;
    }
  }

  /** The whole output, described without the loop: its length, and where each line
      comes from. */
  lemma FastaShape(lines: seq<string>)
    ensures |Fasta(lines)| == Written(|lines|)
    ensures forall i: nat :: i < |Fasta(lines)| ==>
      Source(i) < |lines| && Fasta(lines)[i] == if i % 2 == 0 then Header(lines[Source(i)]) else lines[Source(i)]
  {
    FastaLength(lines);
    forall i: nat | i < |Fasta(lines)|
      ensures Source(i) < |lines|
      ensures Fasta(lines)[i] == if i % 2 == 0 then Header(lines[Source(i)]) else lines[Source(i)]
    {
      FastaAt(lines, i);
    }
  }

  /** A file of whole records gives two output lines per record. */
  lemma WholeRecords(lines: seq<string>)
    requires |lines| % 4 == 0
    ensures |Fasta(lines)| == |lines| / 2
  {
    FastaLength(lines);
  }

  /** A header line with nothing after it is still written. */
  lemma TrailingHeader(lines: seq<string>)
    requires |lines| % 4 == 1
    ensures Fasta(lines) != [] && Fasta(lines)[|Fasta(lines)| - 1] == Header(lines[|lines| - 1])
  {
    var n := |lines| - 1;
    FastaLength(lines[..n]);
  }

  lemma FastaSnoc(lines: seq<string>, line: string)
    ensures Fasta(lines + [line]) == Fasta(lines) + OutputFor(|lines| + 1, line)
  {
    var s := lines + [line];
    assert |s| - 1 == |lines| && s[..|s| - 1] == lines && s[|s| - 1] == line;
  }
}
