/** How an operation of the machine can end. Everything but `Live` is final: the process is gone. */
module Outcomes {

  datatype Outcome<+T> =
    | Live(value: T)
    | Destroyed      // destroy_ijvm_now (src/terminate.c)
    | WildStack      // a word outside the allocated stack was touched
    | WildCode       // a byte outside code memory was read
    | Unmodelled     // a NET* instruction, which talks to the operating system
    | Undisciplined  // frame machine only: the program left its operand stack
  {
    predicate IsFailure() { !Live? }

    /** The outcomes a single stack or heap operation can have. */
    predicate Local() { Live? || Destroyed? || WildStack? }

    function PropagateFailure<U>(): Outcome<U>
      requires IsFailure()
    {
      match this
      case Destroyed => Destroyed
      case WildStack => WildStack
      case WildCode => WildCode
      case Unmodelled => Unmodelled
      case Undisciplined => Undisciplined
    }

    function Extract(): T
      requires Live?
    {
      value
    }
  }

  datatype Option<+T> = None | Some(value: T)
}
