/** Limits, identities and drafts shared by the semantic document, its projections and its events. */
module Types {
  const MAX_ROWS: nat := 512
  const MAX_GRAPHEMES: nat := 16_384
  const MAX_UTF8_BYTES: nat := 1_048_576
  const MAX_NODES: nat := 256
  const MAX_NODE_NAME_BYTES: nat := 4_096

  type byte = b: int | 0 <= b < 0x100
  type uint64 = n: int | 0 <= n < 0x1_0000_0000_0000_0000

  const MAX_UINT64: uint64 := 0xFFFF_FFFF_FFFF_FFFF

  /** Text as the bytes of its encoding. */
  type Text = seq<byte>

  const NEWLINE: Text := [0x0A]

  /** The check that named the identity fault, for the errors that wrap the same sentinel. */
  datatype IdentityFault = NodeFault | ActivationFault | DuplicateFault | RootParentFault | MissingParentFault
                         | ParentOrderFault | FocusFault

  datatype Error =
    | InvalidDocument
    | InvalidIdentity(fault: IdentityFault)
    | InvalidText
    | InvalidBounds
    | InvalidRange
    | StaleRange
    | CounterExhausted
    | InvalidProjection

  datatype Option<+T> = None | Some(value: T)
  datatype Result<+T> = Ok(value: T) | Err(error: Error)

  datatype NodeKind = KindNone | KindWindow | KindTab | KindPane | KindInput | KindItem {
    predicate Valid() {
      !KindNone?
    }

    /** Panes and the kinds after them exist in activations. */
    predicate Activated() {
      KindPane? || KindInput? || KindItem?
    }
  }

  datatype NodeID = NodeID(kind: NodeKind, projection: uint64, objectID: uint64, activation: uint64) {
    predicate Valid() {
      kind.Valid() && projection != 0 && objectID != 0
    }
  }

  const NO_NODE := NodeID(KindNone, 0, 0, 0)

  datatype Role = RoleNone | RoleWindow | RoleTab | RoleTerminal | RoleDialog | RoleTextField | RoleList
                | RoleListItem | RoleStatus {
    predicate Valid() {
      !RoleNone?
    }
  }

  /** A rectangle in exact arithmetic, so every coordinate is finite. */
  datatype Rect = Rect(x: real, y: real, width: real, height: real) {
    predicate Valid() {
      width >= 0.0 && height >= 0.0
    }
  }

  datatype Span = Span(start: int, end: int) {
    predicate Valid(limit: int) {
      start >= 0 && end >= start && end <= limit
    }
  }

  datatype RowDraft = RowDraft(text: Text, bounds: seq<Rect>, softWrapped: bool)

  datatype NodeDraft = NodeDraft(
    id: NodeID,
    parent: NodeID,
    role: Role,
    name: Text,
    rows: seq<RowDraft>,
    caret: Option<int>,
    selection: Option<Span>)

  datatype DocumentDraft = DocumentDraft(
    providerID: uint64,
    generation: uint64,
    nodes: seq<NodeDraft>,
    focus: NodeID,
    truncated: bool)

  function Min(a: int, b: int): int {
    if a < b then a else b
  }

  function Max(a: int, b: int): int {
    if a > b then a else b
  }

  /** The text of a list of pieces. */
  function Concat(pieces: seq<Text>): Text {
    if pieces == [] then [] else Concat(pieces[..|pieces| - 1]) + pieces[|pieces| - 1]
  }

  lemma {:induction false} ConcatAppend(a: seq<Text>, b: seq<Text>)
    ensures Concat(a + b) == Concat(a) + Concat(b)
  {
    hide Concat;
    if b == [] {
      ConcatNone();
      assert a + b == a;
    } else {
      var c, last := b[..|b| - 1], b[|b| - 1];
      ConcatAppend(a, c);
      assert a + b == (a + c) + [last] && b == c + [last];
      ConcatOne(a + c, last);
      ConcatOne(c, last);
    }
  }

  lemma ConcatNone()
    ensures Concat([]) == []
  {
  }

  lemma ConcatOne(a: seq<Text>, x: Text)
    ensures Concat(a + [x]) == Concat(a) + x
  {
    assert (a + [x])[..|a|] == a;
  }

  lemma SliceAppended(a: seq<Text>, b: seq<Text>)
    ensures (a + b)[|a|..|a| + |b|] == b
  {
  }

  /** The text ends a line: it contains a carriage return or a line feed. */
  predicate HasLineBreak(s: Text) {
    0x0D in s || 0x0A in s
  }
}
