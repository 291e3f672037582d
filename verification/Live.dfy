/** The live machine, in place, against the reference machine and the firmware. */
module Live {
  import opened Simulation
  import opened Runs
  import opened Devices
  import opened Interpreter
  import opened Startup
  import opened Boot
  import opened Firmware
  import Isa
  import Registry
  import Vm
  import Lifecycle

  // A new machine is as the lifecycle's initial state has it.
  method New(devs: seq<Dev>) returns (m: Machine)
    requires forall i, j | 0 <= i < j < |devs| && devs[i].RamDev? && devs[j].RamDev? :: devs[i].ram != devs[j].ram
    ensures fresh(m) && m.Valid() && m.devs == devs
    ensures var s := Lifecycle.Initial(m.Stores());
      m.State() == s.hart && m.insts == s.config.insts && m.started == s.started
  {
    m := new Machine(devs);
  }

  // A configuration call of the lifecycle is what the method of that name does.
  method Configure(m: Machine, c: Lifecycle.Config, call: Lifecycle.Call)
    requires m.Valid() && c.insts == m.insts && (call.AddMem? ==> call.r.store < |m.devs|)
    modifies m`insts, m`csrs, m`mems, m`pc
    ensures m.Valid()
    ensures m.insts == if m.started then c.insts else Lifecycle.ConfigAfter(c, call).insts
    ensures m.State() == if m.started then old(m.State()) else Lifecycle.HartAfter(c, old(m.State()), call)
  {
    match call {
      case AddInst(name, ext) =>
        Registry.NamedIffSameName(m.insts, name);
        var _ := m.AddInst(name, ext);
      case AddMem(r) => var _ := m.AddMem(r.addr, r.len, r.store);
      case SetStartAddr(addr) => var _ := m.SetStartAddr(addr);
      case _ =>
    }
  }

  // With only the base set registered, a run whose steps are all honest leaves the
  // machine as the reference machine, or stops where and as it traps.
  method RunBase(m: Machine, n: nat) returns (why: Vm.Stop)
    requires m.Valid() && Registry.Exts(m.insts) == [Vm.BaseI]
    requires HonestRun(n, m.State())
    modifies m`pc, m`pcChanged, m`csrs, m.x, m.Rams()
    ensures m.Valid() && AgreesAtEnd(Vm.Stopped(why, m.State()), Isa.Steps(n, Abs(old(m.State()))))
  {
    RunAgreesIff(n, m.State());
    why := m.Run(n);
    assert AgreesAfter(n, old(m.State()));
    hide *;
  }

  // From reset with the firmware's image in its memory objects, the machine reaches
  // init_finish in place, with the data copied and bss cleared.
  method RunFirmware(m: Machine, ghost y: Symbols, n: nat) returns (why: Vm.Stop)
    requires m.Valid() && Registry.Exts(m.insts) == [Vm.BaseI]
    requires Flashed(m.State(), y) && y.sdata <= y.edata && y.sbss <= y.ebss && n == Length(y)
    modifies m`pc, m`pcChanged, m`csrs, m.x, m.Rams()
    ensures m.Valid() && why == Vm.ExitRequested
    ensures var s := old(m.State());
      && s.Valid() && s.pc + 88 < 0x1_0000_0000
      && (y.edata - y.sdata) % 4 == 0 && Readable(Abs(s).mem, y.ldata, y.edata - y.sdata)
      && Abs(m.State()) == Booted(Abs(s), s.pc, y) && SetUp(Abs(s), y, Abs(m.State()))
  {
    FirmwareBoots(m.State(), y);
    why := m.Run(n);
    hide *;
  }
}
