/** The vocabulary of a report (caps.rs, report.rs): capabilities, functions, processes. Source
    locations and paths are not part of it. */
module Reports {
  import opened Graphs
  import opened NameParser

  datatype Capability =
    | Unspecified | Safe | Files | Network | Runtime | ReadSystemState | ModifySystemState
    | OperatingSystem | SystemCalls | ArbitraryExecution | Cgo | Unanalyzed | UnsafePointer
    | Reflect | Exec | DynamicLoading | Instrumentation | NativeCode

  datatype CapabilityType = UnspecifiedType | Direct | Transitive

  type Capabilities = map<Capability, CapabilityType>

  datatype FunctionName =
    | Rust(displayName: string, name: RustFunctionName)
    | Other(displayName: string, language: string)

  datatype Function = Function(name: FunctionName, capabilities: Capabilities, syscalls: set<string>)

  datatype Process = Process(capabilities: set<Capability>, functions: seq<Function>, edges: seq<Edge<nat>>)

  datatype Report = Report(process: Process, children: seq<Process>)
}
