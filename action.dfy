/** The planned system actions. The source's lockfile, executor, script
    generator and tests all use the form in which every action also records
    its `origin`, the package (and phase) it comes from; that form is the one
    modelled here. */
module Action {

  datatype PackageOperation = Install | Uninstall

  datatype ScriptOperation = Run

  datatype FileOperation = Link | Copy | Remove

  datatype SystemAction =
    | Package(packageOp: PackageOperation, source: string, name: string, origin: string)
    | Script(scriptOp: ScriptOperation, script: string, origin: string)
    | File(fileOp: FileOperation, src: string, dest: string, origin: string)
}
