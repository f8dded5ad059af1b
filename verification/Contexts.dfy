/** Register contexts and trap frames (src/kernel.h, src/process.cpp). */
module Contexts {
  import opened Words

  datatype Context = Context(
    edi: U32, esi: U32, ebp: U32, esp: U32, ebx: U32, edx: U32, ecx: U32, eax: U32,
    gs: U32, fs: U32, es: U32, ds: U32, ss: U32, cs: U32, eip: U32, eflags: U32,
    pageDirectory: U32)

  datatype TrapFrame = TrapFrame(
    edi: U32, esi: U32, ebp: U32, unusedEsp: U32, ebx: U32, edx: U32, ecx: U32, eax: U32,
    gs: U32, fs: U32, es: U32, ds: U32, conditionCode: U32, errorCode: U32,
    returnAddr: U32, oldCs: U32, oldEflags: U32, oldEsp: U32, oldSs: U32)

  const ZERO_CONTEXT := Context(0, 0, 0, 0, 0, 0, 0, 0, 0, 0, 0, 0, 0, 0, 0, 0, 0)

  /** save_context_from_trapframe: every register but the page directory comes from the frame. */
  function SaveContext(cxt: Context, tf: TrapFrame): Context {
    cxt.(edi := tf.edi, esi := tf.esi, ebp := tf.ebp, esp := tf.oldEsp,
         ebx := tf.ebx, edx := tf.edx, ecx := tf.ecx, eax := tf.eax,
         gs := tf.gs, fs := tf.fs, es := tf.es, ds := tf.ds,
         ss := tf.oldSs, cs := tf.oldCs, eip := tf.returnAddr, eflags := tf.oldEflags)
  }

  /** restore_context_to_trapframe: `unusedEsp` and the two interrupt codes are kept. */
  function RestoreContext(cxt: Context, tf: TrapFrame): TrapFrame {
    tf.(eax := cxt.eax, ebx := cxt.ebx, ecx := cxt.ecx, edx := cxt.edx,
        esi := cxt.esi, edi := cxt.edi, ebp := cxt.ebp,
        ds := cxt.ds, es := cxt.es, fs := cxt.fs, gs := cxt.gs,
        returnAddr := cxt.eip, oldCs := cxt.cs, oldSs := cxt.ss,
        oldEsp := cxt.esp, oldEflags := cxt.eflags)
  }

  /** Register by register, where the processor keeps each in a frame of an interrupt with privilege
      transition. */
  predicate SameRegisters(c: Context, tf: TrapFrame) {
    && c.eax == tf.eax && c.ebx == tf.ebx && c.ecx == tf.ecx && c.edx == tf.edx
    && c.esi == tf.esi && c.edi == tf.edi && c.ebp == tf.ebp && c.esp == tf.oldEsp
    && c.ds == tf.ds && c.es == tf.es && c.fs == tf.fs && c.gs == tf.gs
    && c.cs == tf.oldCs && c.ss == tf.oldSs && c.eip == tf.returnAddr && c.eflags == tf.oldEflags
  }

  /** Saving takes every register from the frame and restoring puts every one back, each in its own
      place, so saving a frame and restoring it into any other frame reproduces every copied register,
      and restoring a context and saving it again loses nothing. */
  lemma SaveRestoreIdentity(cxt: Context, tf: TrapFrame, target: TrapFrame)
    ensures SameRegisters(SaveContext(cxt, tf), tf) && SaveContext(cxt, tf).pageDirectory == cxt.pageDirectory
    ensures SameRegisters(cxt, RestoreContext(cxt, tf))
    ensures RestoreContext(SaveContext(cxt, tf), target)
            == tf.(unusedEsp := target.unusedEsp, conditionCode := target.conditionCode,
                   errorCode := target.errorCode)
    ensures SaveContext(cxt, RestoreContext(cxt, tf)) == cxt
  {
  }
}
