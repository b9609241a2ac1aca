/**
 * How the statement scanner turns the extracted PDF text into lines: split
 * at every line feed, trim each piece, and drop the pieces left empty.
 */
module StatementLines {
  import opened JsText

  /** `parts.map(l => l.trim())`. */
  function TrimEach(parts: seq<string>): (r: seq<string>)
    ensures |r| == |parts|
  {
    seq(|parts|, k requires 0 <= k < |parts| => Trim(parts[k]))
  }

  /** `lines.filter(l => l.length > 0)`. */
  function DropEmpty(lines: seq<string>): (r: seq<string>)
    ensures |r| <= |lines|
    decreases |lines|
  {
    if lines == [] then []
    else (if lines[0] == [] then [] else [lines[0]]) + DropEmpty(lines[1..])
  }

  /** `texto.split('\n').map(l => l.trim()).filter(l => l.length > 0)`. */
  function NormalizeLines(text: string): seq<string> {
    DropEmpty(TrimEach(Split(text, '\n')))
  }

  /** A line as the scanner sees it: not empty, trimmed, and without a line feed. */
  predicate IsNormalLine(l: string) {
    l != [] && IsTrimmed(l) && '\n' !in l
  }

  lemma {:induction false} DropEmptyAppend(a: seq<string>, b: seq<string>)
    ensures DropEmpty(a + b) == DropEmpty(a) + DropEmpty(b)
    decreases |a|
  {
    if a == [] {
      assert a + b == b;
    } else {
      assert (a + b)[1..] == a[1..] + b;
      DropEmptyAppend(a[1..], b);
    }
  }

  lemma {:induction false} DropEmptyKeeps(lines: seq<string>, P: string -> bool)
    requires forall k :: 0 <= k < |lines| && lines[k] != [] ==> P(lines[k])
    ensures forall l :: l in DropEmpty(lines) ==> l != [] && P(l)
    decreases |lines|
  {
    if lines != [] {
      DropEmptyKeeps(lines[1..], P);
    }
  }

  lemma TrimEachAppend(a: seq<string>, b: seq<string>)
    ensures TrimEach(a + b) == TrimEach(a) + TrimEach(b)
  {
  }

  /** Every line the scanner sees is non-empty, trimmed and free of line feeds. */
  lemma NormalizedLinesAreNormal(text: string)
    ensures forall l :: l in NormalizeLines(text) ==> IsNormalLine(l)
  {
    var parts := Split(text, '\n');
    SplitJoin(text, '\n');
    var trimmed := TrimEach(parts);
    forall k | 0 <= k < |trimmed| && trimmed[k] != []
      ensures IsTrimmed(trimmed[k]) && '\n' !in trimmed[k]
    {
      TrimSpec(parts[k]);
      assert parts[k] in parts;
      if '\n' in trimmed[k] {
        TrimKeeps(parts[k], '\n');
      }
    }
    DropEmptyKeeps(trimmed, l => IsTrimmed(l) && '\n' !in l);
  }

  /** Normalising text joined at a line feed normalises the two sides separately. */
  lemma NormalizeAppend(a: string, b: string)
    ensures NormalizeLines(a + "\n" + b) == NormalizeLines(a) + NormalizeLines(b)
  {
    SplitAppend(a, '\n', b);
    TrimEachAppend(Split(a, '\n'), Split(b, '\n'));
    DropEmptyAppend(TrimEach(Split(a, '\n')), TrimEach(Split(b, '\n')));
  }

  /** A single piece becomes its trimmed self, or nothing when it is all white space. */
  lemma NormalizeSingle(l: string)
    requires '\n' !in l
    ensures NormalizeLines(l) == if AllSpace(l) then [] else [Trim(l)]
  {
    assert IndexOf(l, '\n') == |l|;
    assert Split(l, '\n') == [l];
    TrimSpec(l);
    assert TrimEach([l]) == [Trim(l)];
    assert DropEmpty([Trim(l)]) == (if Trim(l) == [] then [] else [Trim(l)]) + DropEmpty([]);
  }

  /** Empty text yields no lines. */
  lemma NormalizeEmpty()
    ensures NormalizeLines("") == []
  {
    NormalizeSingle("");
  }

  /** A normal line is its own normalisation. */
  lemma NormalizeNormalLine(l: string)
    requires IsNormalLine(l)
    ensures NormalizeLines(l) == [l]
  {
    NormalizeSingle(l);
    TrimIdentity(l);
    TrimSpec(l);
  }

  /** Lines that are already normal come back unchanged from joining them with line feeds. */
  lemma {:induction false} NormalizeJoin(lines: seq<string>)
    requires forall l :: l in lines ==> IsNormalLine(l)
    ensures NormalizeLines(Join(lines, '\n')) == lines
    decreases |lines|
  {
    if lines == [] {
      NormalizeEmpty();
    } else {
      NormalizeNormalLine(lines[0]);
      if |lines| > 1 {
        NormalizeJoin(lines[1..]);
        JoinStep(lines[0], Join(lines[1..], '\n'), lines[1..]);
        assert Join(lines, '\n') == lines[0] + "\n" + Join(lines[1..], '\n');
      }
    }
  }

  lemma JoinStep(l: string, rest: string, tail: seq<string>)
    requires NormalizeLines(l) == [l] && NormalizeLines(rest) == tail
    ensures NormalizeLines(l + "\n" + rest) == [l] + tail
  {
    NormalizeAppend(l, rest);
  }

  /** Normalising is idempotent once its lines are joined again. */
  lemma NormalizeIdempotent(text: string)
    ensures NormalizeLines(Join(NormalizeLines(text), '\n')) == NormalizeLines(text)
  {
    NormalizedLinesAreNormal(text);
    NormalizeJoin(NormalizeLines(text));
  }
}
