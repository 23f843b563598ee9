/** What the process code hands to the architecture layer: the arguments of
    the execution-context constructors, and the user-stack constants. */
module Arch {
  import opened Memory

  /** The register snapshot taken on entry to the kernel. */
  datatype TrapFrame = TrapFrame(registers: seq<nat>)

  /** An execution context, recorded by the constructor that built it and the
      arguments the process code passed (`Context::null`, `new_kernel_thread`,
      `new_user_thread`, `new_fork`, `new_clone`). Kernel stacks and page-table
      tokens are not part of the model. */
  datatype ArchContext =
    | Null
    | KernelThread(entry: nat, arg: nat)
    | UserThread(entry: nat, userStackTop: nat, is32: bool)
    | Forked(tf: TrapFrame)
    | Cloned(tf: TrapFrame, stackTop: nat, tls: nat)

  /** `USER_STACK_OFFSET`, `USER32_STACK_OFFSET` and `USER_STACK_SIZE`, which
      depend on the target architecture. */
  datatype StackLayout = StackLayout(userStackOffset: nat, user32StackOffset: nat, userStackSize: nat)
  {
    function Bottom(is32: bool): nat
    {
      if is32 then user32StackOffset else userStackOffset
    }

    function Top(is32: bool): nat
    {
      Bottom(is32) + userStackSize
    }

    /** The user stack area: user-accessible, not executable. */
    function Area(is32: bool): (area: MemoryArea)
      ensures area.start == Bottom(is32) && area.end == Top(is32)
      ensures area.Size() == userStackSize
      ensures area.attr.user && !area.attr.execute
    {
      MemoryArea(Bottom(is32), Top(is32), MemoryAttr.Default().User(), "user_stack")
    }
  }
}
