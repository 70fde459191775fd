/** The configuration of a rednode and the leaf-to-root chain of nodes.

    chain[0] is the leaf, chain[i + 1] is the parent of chain[i]. Merging only reads the nodes. */
module Config {
  import opened Wrappers

  datatype VarMode = DefaultMode | Static | ExecFd | Remove | Inherit

  datatype Var = Var(mode: VarMode, key: string, value: Option<string>)

  datatype Cap = Cap(cap: string, add: int)

  datatype Export = Export(mount: string, path: Option<string>, mode: bv32)

  datatype Share = Share(
    all: Option<string>, user: Option<string>, cgroup: Option<string>, ipc: Option<string>,
    pid: Option<string>, net: Option<string>, time: Option<string>)

  datatype OptFlag = OptUnset | OptDisabled | OptEnabled

  /** The values settled by the last item that sets them. */
  datatype Scalars = Scalars(
    diewithparent: OptFlag, newsession: OptFlag,
    verbose: int, inheritenv: int, gpgcheck: int, unsafe: int, maprootuser: int,
    rpmdir: Option<string>, persistdir: Option<string>, cachedir: Option<string>,
    hostname: Option<string>, chdir: Option<string>, umask: Option<string>,
    setuser: Option<string>, setgroup: Option<string>, smack: Option<string>,
    cgrouproot: Option<string>)

  function NoScalars(): Scalars {
    Scalars(OptUnset, OptUnset, 0, 0, 0, 0, 0, None, None, None, None, None, None, None, None, None, None)
  }

  datatype Tag = Tag(scalars: Scalars, path: Option<string>, ldpath: Option<string>,
                     share: Share, capabilities: seq<Cap>)

  datatype Config = Config(tag: Tag, vars: seq<Var>, exports: seq<Export>)

  datatype Node = Node(redpath: string, confadmin: Option<Config>, config: Option<Config>)

  function Level(node: Node, admin: bool): Option<Config> {
    if admin then node.confadmin else node.config
  }
}
