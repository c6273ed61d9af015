// agent/updates/store/atomic.go: the plain-text encoding of a pointer.
module Pointers {
  /** trimTrailingNewline, as the loop shrinks the slice. */
  function Trimmed(b: string): string {
    if b != "" && (b[|b| - 1] == '\n' || b[|b| - 1] == '\r') then Trimmed(b[..|b| - 1]) else b
  }

  predicate IsLineBreak(c: char) {
    c == '\n' || c == '\r'
  }

  /** Strips all line breaks at the end and nothing else. */
  method TrimTrailingNewline(b: string) returns (r: string)
    ensures r == Trimmed(b)
    ensures r <= b && (r == "" || !IsLineBreak(r[|r| - 1]))
    ensures forall i | |r| <= i < |b| :: IsLineBreak(b[i])
  {
    r := b;
    while r != "" && (r[|r| - 1] == '\n' || r[|r| - 1] == '\r')
      invariant Trimmed(r) == Trimmed(b) && r <= b
      invariant forall i | |r| <= i < |b| :: IsLineBreak(b[i])
      decreases |r|
    {
      r := r[..|r| - 1];
    }
  }

  /** A plain-text pointer file. */
  function FileText(version: string): string {
    version + "\n"
  }

  lemma {:induction false} TrimmedIsShorter(b: string)
    ensures |Trimmed(b)| <= |b| && (Trimmed(b) == b <==> b == "" || (b[|b| - 1] != '\n' && b[|b| - 1] != '\r'))
  {
    if b != "" && (b[|b| - 1] == '\n' || b[|b| - 1] == '\r') {
      TrimmedIsShorter(b[..|b| - 1]);
    }
  }

  /** A text pointer reads back as what was written exactly when the version ends in no newline. */
  lemma FilePointerRoundTrip(version: string)
    ensures Trimmed(FileText(version)) == version <==>
            version == "" || (version[|version| - 1] != '\n' && version[|version| - 1] != '\r')
    ensures version < FileText(version) && FileText(version)[|version|..] == "\n"
  {
    assert FileText(version)[..|version|] == version;
    TrimmedIsShorter(version);
  }
}
