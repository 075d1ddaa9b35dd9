/**
 * The bounded error stack of src/error.c: at most eight messages, the
 * oldest evicted first, and a combined message that lists them newest
 * first separated by newlines. Messages arrive already formatted; the
 * `printf`-style formatting is not modelled.
 */
module ErrorStack {
  import opened Common

  /** MAX_ERROR_STACK */
  const MAX_ERROR_STACK: nat := 8

  /** MAX_ERROR_SIZE: the size of the formatting buffer, terminator included. */
  const MAX_ERROR_SIZE: nat := 256

  /** ERROR_OUTPUT_SIZE: the initial size of the combined-message buffer. */
  const ERROR_OUTPUT_SIZE: nat := 256

  /** ERROR_SEPARATOR */
  const SEPARATOR: string := "\n"

  /** The characters of a C string: those before the first NUL. */
  function UpToNul(text: string): (r: string)
    ensures |r| <= |text| && r == text[..|r|]
    ensures '\0' !in r
    ensures |r| < |text| ==> text[|r|] == '\0'
  {
    if text == [] then []
    else if text[0] == '\0' then []
    else [text[0]] + UpToNul(text[1..])
  }

  /**
   * What error_add stores of a formatted text: vsnprintf with a size of
   * MAX_ERROR_SIZE keeps at most 255 characters, and strdup copies up to
   * the terminator.
   */
  function Stored(text: string): (r: string)
  {
    var c := UpToNul(text);
    if |c| < MAX_ERROR_SIZE then c else c[..MAX_ERROR_SIZE - 1]
  }

  lemma StoredBounds(text: string)
    ensures |Stored(text)| < MAX_ERROR_SIZE
    ensures Stored(text) == text[..|Stored(text)|] && '\0' !in Stored(text)
    ensures '\0' !in text && |text| < MAX_ERROR_SIZE ==> Stored(text) == text
  {
    var c := UpToNul(text);
    assert |c| < |text| ==> text[|c|] in text;
  }

  /** The stack after error_add: full stacks drop their oldest message first. */
  function Pushed(messages: seq<string>, text: string): (r: seq<string>)
    requires |messages| <= MAX_ERROR_STACK
  {
    (if |messages| == MAX_ERROR_STACK then messages[1..] else messages) + [Stored(text)]
  }

  /**
   * error_add leaves the new message last and min(count + 1, 8) messages;
   * the ones kept are the newest of the old ones, in their order.
   */
  lemma PushedKeepsOrder(messages: seq<string>, text: string)
    requires |messages| <= MAX_ERROR_STACK
    ensures var r := Pushed(messages, text);
      |r| == if |messages| < MAX_ERROR_STACK then |messages| + 1 else MAX_ERROR_STACK
    ensures var r := Pushed(messages, text);
      r[|r| - 1] == Stored(text) &&
      forall i :: 0 <= i < |r| - 1 ==> r[i] == messages[i + |messages| + 1 - |r|]
  {
  }

  /** The combined message: newest first, separated by newlines, nothing after the last. */
  function Joined(messages: seq<string>): (r: string)
  {
    if |messages| == 0 then ""
    else if |messages| == 1 then messages[0]
    else messages[|messages| - 1] + SEPARATOR + Joined(messages[..|messages| - 1])
  }

  /** The total length of the messages. */
  function TotalLength(messages: seq<string>): nat
  {
    if messages == [] then 0 else TotalLength(messages[..|messages| - 1]) + |messages[|messages| - 1]|
  }

  /** The combined message is the messages plus one separator between each two. */
  lemma {:induction false} JoinedLength(messages: seq<string>)
    requires messages != []
    ensures |Joined(messages)| == TotalLength(messages) + |messages| - 1
  {
    if |messages| > 1 {
      var front := messages[..|messages| - 1];
      JoinedLength(front);
      assert front[..|front| - 1] == messages[..|messages| - 1][..|messages| - 2];
      assert |front| == 1 ==> TotalLength(front) == |front[0]| by {
        if |front| == 1 {
          assert front[..0] == [];
        }
      }
    } else {
      assert messages[..0] == [];
    }
  }

  /**
   * Joining the oldest to the newest i + 1..count messages and then message
   * i is the loop of error_get going down from the newest.
   */
  lemma JoinedStep(messages: seq<string>, i: nat)
    requires i < |messages|
    ensures Joined(messages[i..]) ==
      (if i == |messages| - 1 then messages[i] else Joined(messages[i + 1..]) + SEPARATOR + messages[i])
  {
    if i < |messages| - 1 {
      JoinedFront(messages[i..]);
      assert messages[i..][1..] == messages[i + 1..];
    }
  }

  /**
   * What the loop of error_get has written once it has copied messages
   * i..count-1: those joined, and a separator when older ones remain.
   */
  ghost function WrittenFrom(messages: seq<string>, i: nat): string
    requires i <= |messages|
  {
    if i == |messages| then "" else Joined(messages[i..]) + (if i > 0 then SEPARATOR else "")
  }

  /** One iteration of the loop appends message i and, unless it is the oldest, a separator. */
  lemma WrittenFromStep(messages: seq<string>, i: nat)
    requires i < |messages|
    ensures WrittenFrom(messages, i) == WrittenFrom(messages, i + 1) + messages[i] + (if i > 0 then SEPARATOR else "")
  {
    JoinedStep(messages, i);
  }

  lemma WrittenFromAll(messages: seq<string>)
    ensures WrittenFrom(messages, 0) == Joined(messages)
  {
    assert messages[0..] == messages;
  }

  /** With at least two messages, the oldest comes last, after a separator. */
  lemma {:induction false} JoinedFront(messages: seq<string>)
    requires |messages| >= 2
    ensures Joined(messages) == Joined(messages[1..]) + SEPARATOR + messages[0]
    decreases |messages|
  {
    var n := |messages|;
    if n == 2 {
      assert messages[1..] == [messages[1]];
      assert messages[..1] == [messages[0]];
    } else {
      var front := messages[..n - 1];
      JoinedFront(front);
      assert front[1..] == messages[1..][..n - 2];
      assert front[0] == messages[0];
      assert messages[1..][n - 2] == messages[n - 1];
    }
  }

  /**
   * The error_get loop's buffer size as written: `output_size +=
   * strlen(m) + (i > 0) ? 1 : 0` parses as `(strlen(m) + (i > 0)) ? 1 :
   * 0`, so each message adds 1 unless it is the empty oldest one.
   */
  function OutputSizeAsWritten(messages: seq<string>, i: nat): (r: nat)
    requires i <= |messages|
    decreases |messages| - i
  {
    if i == |messages| then 0
    else OutputSizeAsWritten(messages, i + 1) + (if |messages[i]| + (if i > 0 then 1 else 0) != 0 then 1 else 0)
  }

  /** The buffer size error_get reaches as written, starting from the ERROR_OUTPUT_SIZE it was created with. */
  function CapacityAsWritten(messages: seq<string>, i: nat, capacity: nat): (r: nat)
    requires i <= |messages|
    decreases |messages| - i
  {
    if i == |messages| then capacity
    else
      var size := OutputSizeAsWritten(messages, i);
      var grown := if size > capacity then capacity + Max(ERROR_OUTPUT_SIZE, size - capacity) else capacity;
      CapacityAsWritten(messages, i + 1, grown)
  }

  /** Eight counted sizes never exceed the 256 bytes of the buffer. */
  lemma {:induction false} OutputSizeAsWrittenBound(messages: seq<string>, i: nat)
    requires i <= |messages|
    ensures OutputSizeAsWritten(messages, i) <= |messages| - i
    decreases |messages| - i
  {
    if i < |messages| {
      OutputSizeAsWrittenBound(messages, i + 1);
    }
  }

  lemma {:induction false} CapacityAsWrittenKept(messages: seq<string>, i: nat, capacity: nat)
    requires i <= |messages| <= capacity
    ensures CapacityAsWritten(messages, i, capacity) == capacity
    decreases |messages| - i
  {
    if i < |messages| {
      OutputSizeAsWrittenBound(messages, i);
      CapacityAsWrittenKept(messages, i + 1, capacity);
    }
  }

  /**
   * As written, two messages of 255 characters are combined into 511
   * characters plus a terminator in a buffer that stays 256 bytes long.
   */
  lemma OverflowAsWritten(m: string)
    requires |m| == MAX_ERROR_SIZE - 1
    ensures |Joined([m, m])| + 1 > CapacityAsWritten([m, m], 0, ERROR_OUTPUT_SIZE)
  {
    CapacityAsWrittenKept([m, m], 0, ERROR_OUTPUT_SIZE);
    JoinedLength([m, m]);
    assert [m, m][..1] == [m];
    assert [m][..0] == [];
  }

  /**
   * The error stack: the eight message slots, how many are in use, and the
   * combined-message buffer with its size. `initialised` says whether the
   * global error_stack_type exists yet.
   */
  class Stack {
    var initialised: bool
    const slots: array<string>
    var count: nat
    var output: string
    var capacity: nat

    ghost predicate Valid()
      reads this, slots
    {
      slots.Length == MAX_ERROR_STACK && count <= MAX_ERROR_STACK &&
      (!initialised ==> count == 0) &&
      (initialised ==> capacity >= ERROR_OUTPUT_SIZE)
    }

    /** The messages in the stack, oldest first. */
    ghost function Messages(): (r: seq<string>)
      requires Valid()
      reads this, slots
      ensures |r| == count
    {
      slots[..count]
    }

    /** The stack before first use: no error_stack_type yet. */
    constructor ()
      ensures Valid() && !initialised && Messages() == []
      ensures fresh(slots)
    {
      initialised := false;
      slots := new string[MAX_ERROR_STACK](_ => "");
      count := 0;
      output := "";
      capacity := 0;
    }

    /** error_init: the empty stack and a combined-message buffer of ERROR_OUTPUT_SIZE bytes. */
    method Init()
      requires Valid()
      modifies this
      ensures Valid() && initialised
      ensures old(initialised) ==> count == old(count) && output == old(output) && capacity == old(capacity)
      ensures !old(initialised) ==> count == 0 && output == "" && capacity == ERROR_OUTPUT_SIZE
      ensures slots[..count] == old(slots[..count])
    {
      if !initialised {
        initialised := true;
        count := 0;
        output := "";
        capacity := ERROR_OUTPUT_SIZE;
      }
    }

    /** error_reset: no messages; nothing happens before first use. */
    method Reset()
      requires Valid()
      modifies this
      ensures Valid() && Messages() == []
      ensures initialised == old(initialised) && output == old(output) && capacity == old(capacity)
    {
      if initialised {
        count := 0;
      }
    }

    /** shift_messages: drop the oldest message, moving the others down one slot. */
    method ShiftMessages()
      requires Valid() && count > 0
      modifies this, slots
      ensures Valid() && Messages() == old(Messages())[1..]
      ensures initialised == old(initialised) && output == old(output) && capacity == old(capacity)
    {
      ghost var before := slots[..count];
      var i := 0;
      while i < count - 1
        invariant 0 <= i <= count - 1 && count == old(count)
        invariant initialised == old(initialised) && output == old(output) && capacity == old(capacity)
        invariant slots[..i] == before[1..i + 1]
        invariant slots[i + 1..count] == before[i + 1..]
      {
        ghost var done := slots[..i];
        assert slots[i + 1] == slots[i + 1..count][0] == before[i + 1];
        slots[i] := slots[i + 1];
        assert slots[..i] == done;
        assert slots[..i + 1] == done + [before[i + 1]];
        assert before[1..i + 2] == before[1..i + 1] + [before[i + 1]];
        i := i + 1;
      }
      count := count - 1;
    }

    /** error_add: evict the oldest message of a full stack, then store the new one last. */
    method Add(text: string)
      requires Valid()
      modifies this, slots
      ensures Valid() && initialised
      ensures Messages() == Pushed(old(Messages()), text)
      ensures old(initialised) ==> output == old(output) && capacity == old(capacity)
    {
      Init();
      if count == MAX_ERROR_STACK {
        ShiftMessages();
      }
      slots[count] := Stored(text);
      count := count + 1;
    }

    /** error_has_error: false before first use, otherwise whether a message is stored. */
    method HasError() returns (b: bool)
      requires Valid()
      ensures b <==> Messages() != []
    {
      if initialised {
        b := count != 0;
      } else {
        b := false;
      }
    }

    /**
     * error_get: the messages newest first, separated by newlines, in the
     * combined-message buffer, which grows whenever the text would not fit
     * with its terminator. The messages are not changed.
     */
    method Get() returns (r: string)
      requires Valid()
      modifies this
      ensures Valid() && initialised
      ensures r == Joined(Messages()) && output == r && capacity > |r|
      ensures count == old(count) && Messages() == old(Messages())
    {
      Init();
      ghost var m := Messages();
      output := "";
      var size := 0;
      var i := count;
      while i > 0
        invariant 0 <= i <= count && count == old(count)
        invariant Valid() && initialised && m == Messages()
        invariant output == WrittenFrom(m, i)
        invariant size == |output| && capacity > size
      {
        i := i - 1;
        size := size + |slots[i]| + (if i > 0 then 1 else 0);
        if size + 1 > capacity {
          capacity := capacity + Max(ERROR_OUTPUT_SIZE, size + 1 - capacity);
        }
        WrittenFromStep(m, i);
        assert m[i] == slots[i];
        output := output + slots[i];
        if i > 0 {
          output := output + SEPARATOR;
        }
      }
      WrittenFromAll(m);
      r := output;
    }
  }
}
