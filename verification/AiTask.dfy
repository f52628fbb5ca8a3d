/** The bridge's task record: two fixed text buffers, an id and a status. */
module AiTask {
  import opened Word
  import opened Text

  datatype TaskType = NoTask | Help | SysInfo | StatusReport | Assembly | Sync | HnLang | Generic

  function TypeCode(t: TaskType): byte {
    match t
    case NoTask => 0
    case Help => 1
    case SysInfo => 2
    case StatusReport => 3
    case Assembly => 4
    case Sync => 5
    case HnLang => 6
    case Generic => 7
  }

  datatype TaskStatus = Empty | Pending | Running | Done | Cancelled | Error

  // A task with its buffers read as C strings.
  datatype TaskView = TaskView(
    id: u32, kind: TaskType, input: string, profile: Option<string>, status: TaskStatus, output: string)

  const NO_TASK := TaskView(0, NoTask, "", None, Empty, "")

  // What a buffer of `capacity` bytes holds after a text is copied into it; a null source empties it.
  function Copied(source: Option<string>, capacity: nat): string
    requires capacity > 0
  {
    match source
    case None => ""
    case Some(text) => Take(CStr(text), capacity - 1)
  }

  function Prepared(id: u32, kind: TaskType, input: Option<string>): TaskView {
    TaskView(id, kind, Copied(input, 160), None, Pending, "")
  }

  function WithOutput(t: TaskView, text: string): TaskView {
    t.(output := Copied(Some(text), 1024))
  }

  lemma {:induction false} CStrPrefix(s: string, n: nat)
    requires n <= |s| && NUL !in s[..n]
    ensures n <= |CStr(s)| && CStr(s)[..n] == s[..n]
  {
    if n > 0 {
      assert s[0] == s[..n][0] && s[1..][..n - 1] == s[..n][1..];
      CStrPrefix(s[1..], n - 1);
    }
  }

  class Task {
    var id: u32
    var kind: TaskType
    const input: array<char>
    var profile: Option<string>
    var contextFlags: u32
    var status: TaskStatus
    const output: array<char>

    ghost predicate Valid() {
      input.Length == 160 && output.Length == 1024 && input != output
    }

    ghost function View(): TaskView
      reads this, input, output
    {
      TaskView(id, kind, CStr(input[..]), profile, status, CStr(output[..]))
    }

    constructor ()
      ensures Valid() && View() == NO_TASK && fresh(input) && fresh(output)
    {
      id, kind, profile, contextFlags, status := 0, NoTask, None, 0, Empty;
      input := new char[160](_ => NUL);
      output := new char[1024](_ => NUL);
    }

    static method CopyText(dest: array<char>, source: Option<string>)
      requires dest.Length > 0
      modifies dest
      ensures CStr(dest[..]) == Copied(source, dest.Length)
    {
      var index := 0;
      if source.Some? {
        var text := source.value;
        while At(text, index) != NUL && index + 1 < dest.Length
          invariant index < dest.Length && index <= |text|
          invariant dest[..index] == text[..index] && NUL !in text[..index]
          decreases dest.Length - index
        {
          dest[index] := text[index];
          index := index + 1;
        }
        CStrPrefix(text, index);
        if At(text, index) == NUL {
          CStrUnique(text, index);
        }
      }
      dest[index] := NUL;
      CStrUnique(dest[..], index);
    }

    method Prepare(id: u32, kind: TaskType, input: Option<string>, contextFlags: u32)
      requires Valid()
      modifies this, this.input, output
      ensures View() == Prepared(id, kind, input)
    {
      this.id, this.kind := id, kind;
      CopyText(this.input, input);
      profile := None;
      this.contextFlags := contextFlags;
      status := Pending;
      output[0] := NUL;
      CStrUnique(output[..], 0);
    }

    method SetOutput(text: string)
      requires Valid()
      modifies output
      ensures View() == WithOutput(old(View()), text)
    {
      CopyText(output, Some(text));
    }
  }
}
