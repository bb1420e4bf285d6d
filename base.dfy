/** Shared value types: optional values, JavaScript arguments of unknown type,
    the library's error conditions with their exact messages, and results. */
module Base {

  datatype Option<+T> = None | Some(value: T) {
    function GetOr(default: T): T {
      match this
      case Some(v) => v
      case None => default
    }
  }

  /** A JavaScript argument that the callee type-checks itself: left out, given
      with the expected type, or given with some other type. Which values count as
      left out follows the callee's own test: `undefined` where it compares with
      `undefined`, every falsy value (`undefined`, `null`, `0`, `false`, `""`)
      where it tests the value's truth first; each callee's comment says which. */
  datatype Arg<+T> = Missing | Given(value: T) | WrongType

  /** An argument that must be a non-empty string (`!x || typeof x !== 'string'`
      rejects everything else). */
  predicate IsNonEmptyString(a: Arg<string>) {
    a.Given? && a.value != ""
  }

  /** Every error condition the modelled code raises. */
  datatype Error =
    | ParamsNotObject
    | UriNotString
    | FileUriMissing
    | FileUriNotZip
    | InvalidBranch(branch: string)
    | BranchNotString
    | NoMatch(uriText: string)
    | InvalidVersion
    | SdkExists(name: string, dir: string)
    | NoSdkInZip
    | MoveSourceMissing
    | DestNotString
    | ZipFileNotString
    | ZipMissing
    | ZipNotFile
    | InvalidZip
    | NotNameOrPath
    | SdkNotFound(nameOrPath: string)
    | CallbackNotFunction
    | DirNotString
    | DirMissing
    | NoManifest
    | PlatformNotValid
    | PlatformNotString
    | ModuleVersionInvalid(version: string)
    | LegacyModuleVersionInvalid(version: string)
    | DefaultPathNotString
    | UnknownPlatform
    | IsADirectory
    | NotADirectory
  {
    /** The `message` of the thrown error. */
    function Message(): string {
      match this
      case ParamsNotObject => "Expected params to be an object"
      case UriNotString => "Expected URI to be a string"
      case FileUriMissing => "Specified file URI does not exist"
      case FileUriNotZip => "Specified file URI is not a zip file"
      case InvalidBranch(b) => "Invalid branch \"" + b + "\""
      case BranchNotString => "Expected branch to be a string"
      case NoMatch(u) => "Unable to find any Titanium SDK releases or CI builds that match \"" + u + "\""
      case InvalidVersion => "Invalid Version"
      case SdkExists(n, d) => "Titanium SDK \"" + n + "\" already exists: " + d
      case NoSdkInZip => "Zip file does not appear to contain a Titanium SDK"
      case MoveSourceMissing => "ENOENT: no such file or directory"
      case DestNotString => "Expected destination directory to be a non-empty string"
      case ZipFileNotString => "Expected zip file to be a non-empty string"
      case ZipMissing => "The specified zip file does not exist"
      case ZipNotFile => "The specified zip file is not a file"
      case InvalidZip => "Invalid zip file"
      case NotNameOrPath => "Expected an SDK name or path"
      case SdkNotFound(x) => "Unable to find any SDKs matching \"" + x + "\""
      case CallbackNotFunction => "Expected progress callback to be a function"
      case DirNotString => "Expected directory to be a valid string"
      case DirMissing => "Directory does not exist"
      case NoManifest => "Directory does not contain a valid manifest"
      case PlatformNotValid => "Expected platform to be a valid string"
      case PlatformNotString => "this.platform.trim is not a function"
      case ModuleVersionInvalid(v) => "Version \"" + v + "\" is not valid"
      case LegacyModuleVersionInvalid(v) => "Version " + v + " is not valid"
      case DefaultPathNotString => "Expected default install path to be a string"
      case UnknownPlatform => "Cannot read properties of undefined (reading 'map')"
      case IsADirectory => "EISDIR: illegal operation on a directory"
      case NotADirectory => "ENOTDIR: not a directory"
    }

    /** Whether the error is thrown as a `TypeError` rather than a plain `Error`. */
    predicate IsTypeError() {
      ParamsNotObject? || UriNotString? || BranchNotString? || InvalidVersion? ||
      DestNotString? || ZipFileNotString? || NotNameOrPath? || CallbackNotFunction? ||
      DirNotString? || PlatformNotString? || DefaultPathNotString? || UnknownPlatform?
    }

    /** The machine-readable `code` property: set by the source on a failed
        uninstall, and by Node on file system errors. */
    function Code(): Option<string> {
      match this
      case SdkNotFound(_) => Some("ENOTFOUND")
      case MoveSourceMissing => Some("ENOENT")
      case IsADirectory => Some("EISDIR")
      case NotADirectory => Some("ENOTDIR")
      case _ => None
    }
  }

  datatype Result<+T> = Ok(value: T) | Err(error: Error) {
    predicate IsFailure() { Err? }
    function PropagateFailure<U>(): Result<U>
      requires Err?
    {
      Err(error)
    }
    function Extract(): T
      requires Ok?
    {
      value
    }
  }
}
