/** The state of the Windows host that the manager reads and changes: the
    file system, the values under the system environment registry key, the
    process environment, and the directory os.TempDir() names. */
module Host {
  import opened FileSystem

  class Machine {
    var fs: Fs
    var registry: map<string, string>
    var env: map<string, string>
    const tempDir: string

    constructor (fs: Fs, registry: map<string, string>, env: map<string, string>, tempDir: string)
      ensures this.fs == fs && this.registry == registry && this.env == env && this.tempDir == tempDir
    {
      this.fs := fs;
      this.registry := registry;
      this.env := env;
      this.tempDir := tempDir;
    }

    /** os.Getenv: the empty string when the variable is unset. */
    function Getenv(name: string): (v: string)
      reads this
      ensures name !in env ==> v == ""
      ensures name in env ==> v == env[name]
    {
      if name in env then env[name] else ""
    }
  }
}
