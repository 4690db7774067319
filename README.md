# rust-typings: the word-progress state machine

This project models the core of `rust-typings`, a small typing-practice
window. The core is the `Typings` state in `src/typings.rs`. It holds twenty
target words, each with a highlight colour (`CORRECT`, `WRONG`, `NONE` or
`NEXT`). It also holds the text typed so far (`value`) and the index of the
word being typed (`cur_index`). Three transitions change it:

- start-up builds `"title0"` … `"title19"`, marks word 0 as next, and sets an
  empty buffer and cursor 0;
- the tab key rebuilds the same twenty words, all uncoloured, clears the
  buffer and sets the cursor to 0;
- the space key grades the current word. It drops the buffer's final
  character (the space just typed) and compares the rest with the word. The
  word becomes correct on an exact match and wrong otherwise. Then the buffer
  is cleared, the cursor moves on, and the new current word, if any, is
  marked next. Past the last word, the space key only clears the buffer.

Tab is handled before space, so when both keys arrive in one frame the reset
wins.

Files:

- `format.dfy` (module `Format`): the decimal text of a number, as Rust's
  `format!("{}", n)` writes it, with its inverse and the round-trip proofs.
  The word texts are built from it.
- `typings.dfy` (module `Typings`): the `Highlight` and `Word` datatypes;
  `Snapshot`, the state as a value, with the transition functions
  `Initial`, `AfterReset`, `AfterSubmit` and `AfterFrame`; the invariant
  `Progress` and the lemmas about it; and the class `Typings`. The class
  holds the three fields of the Rust struct, and its methods change them in
  place. Each method's postcondition ties the new state to the
  transition function applied to the old state. A ghost field `typed` records what was
  entered for each graded word since the last start or reset. `Valid()`
  says that each graded word is correct exactly when its entry equals its
  text.

The model follows the code as written; note that:

- The reset leaves word 0 uncoloured (`NONE`), unlike start-up. So after a
  reset no word is marked next until the first submit.
- There is no word sampler, timer, words-per-minute, accuracy, `started` flag
  or in-progress typo colouring in the code. The model has none of them.
- Each word text is the fixed `"title"` followed by its index, not a random
  sample from a word list.

## Model

| member | source | states |
|---|---|---|
| Format.Decimal | src/typings.rs:41 | the text `format!` gives a word index: at least one digit, digits only, no leading zero; it starts with '0' only for 0, and has one digit exactly below 10 |
| Format.ValueOfDecimal | src/typings.rs:41 | reading the decimal text of n back as a number gives n |
| Format.DecimalOfValue | src/typings.rs:41 | every canonical digit string is the decimal text of its own value, so the rendering is onto the canonical texts |
| Format.DecimalInjective | src/typings.rs:41 | two numbers have the same decimal text exactly when they are equal |
| Typings.TitleParts | src/typings.rs:41 | the text `Title(i)` of word i is "title" followed by a canonical decimal numeral whose value is i |
| Typings.TitleInjective | src/typings.rs:40-43 | word texts "title"+i and "title"+j are equal exactly when i == j |
| Typings.FreshWords | src/typings.rs:40-44 | the rebuilt word list has 20 words; word i has text "title"+i and highlight NONE |
| Typings.FreshWordsDistinct | src/typings.rs:40-44 | no two words of a fresh list have the same text |
| Typings.Initial | src/typings.rs:38-51 | after start-up: 20 words, word i is "title"+i, word 0 is NEXT, every other word is NONE, cursor 0, buffer empty |
| Typings.AfterReset | src/typings.rs:93-102 | after tab, whatever the state before: 20 words "title"+i, all NONE including word 0, cursor 0, buffer empty |
| Typings.Entered | src/typings.rs:110 | the submitted word is the buffer with exactly its last character removed |
| Typings.Verdict | src/typings.rs:111-115 | a graded word is CORRECT exactly when the entry equals its text, and WRONG otherwise |
| Typings.AfterSubmit | src/typings.rs:105-125 | after space: the buffer is empty, texts and count unchanged; at or past the last word nothing else changes; otherwise the current word is CORRECT iff the buffer less its last character equals it (else WRONG), the cursor grows by exactly 1, the new current word (if any) is NEXT, and no other word changes |
| Typings.AfterFrame | src/typings.rs:93-125 | one frame: reset on tab (whatever the space key did), else submit on a space that changed the text, else the state is unchanged |
| Typings.FrameProgress | src/typings.rs:93-125 | a frame keeps the progress invariant; a reset empties the entries and a submit that grades a word appends its entry |
| Typings.ResetWins | src/typings.rs:93-105 | when tab and space arrive in one frame, the frame's result is the reset's |
| Typings.InitialProgress | src/typings.rs:38-51 | the start-up state satisfies the progress invariant with nothing entered |
| Typings.ResetProgress | src/typings.rs:93-102 | a reset state satisfies the progress invariant with nothing entered, whatever the state before |
| Typings.SubmitProgress | src/typings.rs:105-125 | a submit keeps the progress invariant (20 words, cursor at most 20, words before the cursor graded by their entries, words after it NONE, the current word NEXT once a word was graded) and appends the entry when a word was graded |
| Typings.AtMostOneNext | src/typings.rs:117-122 | in every reachable state only the word at the cursor can be NEXT, so none is once all 20 are graded |
| Typings.SubmitInRange | src/typings.rs:105-125 | typing a buffer and submitting it while words remain keeps the invariant and records that buffer's entry |
| Typings.SubmitEach | src/typings.rs:105-125 | a run of submits never changes the number of words |
| Typings.EnteredEach | src/typings.rs:110 | the entries of a run of buffers are, position by position, each buffer less its last character |
| Typings.SubmitEachProgress | src/typings.rs:105-125 | any run of submits that fits in the remaining words keeps the invariant and records every entry in order |
| Typings.SubmitEachFromInitial | src/typings.rs:38-51 | after n submits from start-up, the cursor is n and word i < n is CORRECT exactly when the i-th buffer less its last character is "title"+i |
| Typings.Typings.constructor | src/typings.rs:38-51 | the new object is in the start-up state and satisfies the invariant |
| Typings.Typings.SetInput | src/typings.rs:83 | the text field overwrites the buffer; words and cursor are unchanged |
| Typings.Typings.Reset | src/typings.rs:93-102 | the fields become the reset state, from any prior state, and the invariant holds with nothing entered |
| Typings.Typings.Submit | src/typings.rs:105-125 | the fields become the submit transition of the old fields, the invariant is kept, and the entry is recorded when a word was graded |
| Typings.Typings.RenderInput | src/typings.rs:80-128 | one frame of key handling: the fields become the frame transition of the old fields (reset on tab, else submit on a space that changed the text), the invariant is kept, and the entries are emptied on a reset and extended by a grading submit |

## Left out

- `render_words` (src/typings.rs:53-78): line wrapping driven by `f32`
  label widths measured by the GUI library; floating-point layout, no state
  change.
- `setup_fonts` (src/typings.rs:27-35) and the GUI calls in `render_input`
  (building the text field, focus, key polling): calls into a GUI library
  whose code is not part of this model. The key events become the arguments
  of `RenderInput`, or direct calls to `Reset` and `Submit`. The text field's
  write into the buffer becomes `SetInput`.
- The escape key ending the process (src/typings.rs:89-91): process control.
- `src/main.rs`: window set-up and the GUI's update loop. It also calls a
  `render_labels` method that `src/typings.rs` does not define.
- Byte versus character length: the buffer is a sequence of single-byte
  characters. In Rust, a buffer whose last character takes several bytes
  makes the slice at src/typings.rs:110 panic. That case is not modelled.
- The empty buffer on a space in range, and an empty word list, would
  underflow `usize` and panic at src/typings.rs:110 and :106. They are
  preconditions of `AfterSubmit` and `Submit`, not error results.
