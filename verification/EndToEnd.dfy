/**
 From the build to the running program: a program in ELF format that was put on a floppy image is
 found on the mounted volume by its name, accepted by the loader, and once loaded shows at each
 address the byte its file layout gives it.
 */
module EndToEnd {
  import opened Bytes
  import opened Common
  import opened FatDirectory
  import opened FatVolume
  import opened FatDisk
  import opened FatFormat
  import opened MkImage
  import opened ImageLayout
  import opened PageTables
  import opened Elf
  import opened Loader
  import EF = ElfFormat

  // Program `i` of an accepted build, laid out as `l`: it can be started if and only if it is
  // runnable and kernel and programs up to it take at most 2847 clusters.
  lemma {:induction false} StartableIff(boot: Sector, kernel: seq<byte>, programs: seq<Program>, image: seq<byte>,
                                        i: nat, l: EF.Layout, env: Env, env2: Env)
    requires Accepted(kernel, programs) && NamesDistinct(programs)
    requires var files := AllFiles([MkImage.File(KERNEL_NAME, kernel)], programs);
             Layable(files) && ImageHolds(image, boot, files)
    requires FloppyBoot(boot) && AllDone(env) && AllDone(env2)
    requires i < |programs| && EF.LaidOut(programs[i].content, l)
    ensures var m := Mount(DiskOf(image), env);
            && m.Mounted? && |programs[i].content| < TWO32
            && (ReadsAs(m.vol, Format(programs[i].name), i + 1, env2, programs[i].content)
                && Acceptable(programs[i].content)
                <==> && EF.Runnable(l, |programs[i].content|)
                     && Clusters(|kernel|) + Before(programs, i + 1) <= 2847)
  {
    hide Accepts, AllFiles, Layable, ImageHolds, FloppyBoot, Mount, ReadsAs, DiskOf, Format, Before, Clusters,
         Acceptable, EF.Runnable;
    var content := programs[i].content;
    EF.AcceptableIff(content, l);
    assert content != [] by { LaidOutIsLong(content, l); }
    BuildReadsBackIff(boot, kernel, programs, image, i, env, env2);
  }

  lemma LaidOutIsLong(file: seq<byte>, l: EF.Layout)
    requires EF.LaidOut(file, l)
    ensures |file| >= 52
  {
  }

  // What was read is loaded: every byte of every segment stands where its header puts it.
  lemma {:induction false} StartedProgram(v: Volume, name: Name, k: nat, env: Env, content: seq<byte>, l: EF.Layout,
                                          mem: seq<byte>, pd: nat, pages: set<nat>, next: nat, kpd: seq<u32>,
                                          j: nat, x: nat)
    requires ReadsAs(v, name, k, env, content) && ReadFile(v, env, v.dir[k]).ok && EF.LaidOut(content, l)
    requires Loaded(mem, pd, pages, next, kpd, ReadFile(v, env, v.dir[k]).data)
    requires j < |l.phs| && l.phs[j].kind == 1 && x < l.phs[j].memsz
    ensures var ph := l.phs[j];
            && |mem| == LIMIT && pd < 1024 && ph.vaddr + x < TWO32 && ph.offset + ph.filesz <= |content|
            && ReadUser(mem, pd, ph.vaddr + x) == Some(if x < ph.filesz then content[ph.offset + x] else 0)
  {
    hide Loaded, ReadUser, EF.LaidOut, ReadFile;
    EF.LoadedBytes(mem, pd, pages, next, kpd, content, l, j, x);
  }
}
