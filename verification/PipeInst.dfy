/** One instruction of an O3 pipeline trace: its sequence number, the text printed
    beside its timeline, and the tick at which it reached each stage (0 when it never
    did). */
module PipeInst {

  datatype Inst = Inst(sn: int, text: string, fetch: int, decode: int, rename: int, dispatch: int,
                       issue: int, complete: int, retire: int, store: int)

  function Sn(inst: Inst): int { inst.sn }
}
