/**
 * `ServiceComponent`: one container of a deployed service, as read from the
 * service's declaration. Every field but `isStateful` is final; the one
 * checked rule is that the entry component must name an entry port.
 */
module ServiceComponents {
  import opened Wrappers
  import opened JavaLang

  /** Why construction fails (the Java constructor throws a RuntimeException). */
  datatype ConfigError = MissingEntryPort

  class ServiceComponent {
    const componentName: string
    const imageName: string
    /** Any TCP port the component listens on; absent when null. */
    const exposedPort: Option<Int32>
    var isStateful: bool
    const isEntryComponent: bool
    /** The HTTP port of the entry component; absent when null. */
    const entryPort: Option<Int32>
    const environmentVariables: map<string, string>
    const entrypoint: string
    const addMountSrc: string
    const addMountTgt: string

    /** An entry component has an entry port. */
    predicate Valid()
    {
      isEntryComponent ==> entryPort.Some?
    }

    /** The constructor's assignments; construction only completes for a valid configuration. */
    constructor(componentName: string, imageName: string, exposedPort: Option<Int32>,
                isStateful: bool, isEntryComponent: bool, entryPort: Option<Int32>,
                environmentVariables: map<string, string>, entrypoint: string,
                addMountSrc: string, addMountTgt: string)
      requires !(isEntryComponent && entryPort.None?)
      ensures Valid()
      ensures this.componentName == componentName && this.imageName == imageName
      ensures this.exposedPort == exposedPort && this.isStateful == isStateful
      ensures this.isEntryComponent == isEntryComponent && this.entryPort == entryPort
      ensures this.environmentVariables == environmentVariables && this.entrypoint == entrypoint
      ensures this.addMountSrc == addMountSrc && this.addMountTgt == addMountTgt
    {
      this.componentName := componentName;
      this.imageName := imageName;
      this.exposedPort := exposedPort;
      this.isStateful := isStateful;
      this.isEntryComponent := isEntryComponent;
      this.entryPort := entryPort;
      this.environmentVariables := environmentVariables;
      this.entrypoint := entrypoint;
      this.addMountSrc := addMountSrc;
      this.addMountTgt := addMountTgt;
    }

    /**
     * Construction as a caller sees it: fails exactly when an entry component
     * comes without an entry port, and otherwise yields a new, valid component
     * holding the given values.
     */
    static method New(componentName: string, imageName: string, exposedPort: Option<Int32>,
                      isStateful: bool, isEntryComponent: bool, entryPort: Option<Int32>,
                      environmentVariables: map<string, string>, entrypoint: string,
                      addMountSrc: string, addMountTgt: string)
      returns (r: Result<ServiceComponent, ConfigError>)
      ensures r.Failure? <==> isEntryComponent && entryPort.None?
      ensures r.Failure? ==> r.error == MissingEntryPort
      ensures r.Success? ==> fresh(r.value) && r.value.Valid()
      ensures r.Success? ==> r.value.GetComponentName() == componentName && r.value.GetImageName() == imageName
      ensures r.Success? ==> r.value.GetExposedPort() == exposedPort && r.value.IsStateful() == isStateful
      ensures r.Success? ==> r.value.IsEntryComponent() == isEntryComponent && r.value.GetEntryPort() == entryPort
      ensures r.Success? ==> r.value.GetEnvironmentVariables() == environmentVariables
      ensures r.Success? ==> r.value.GetEntrypoint() == entrypoint
      ensures r.Success? ==> r.value.GetAddMountSrc() == addMountSrc && r.value.GetAddMountTgt() == addMountTgt
    {
      if isEntryComponent && entryPort.None? {
        return Failure(MissingEntryPort);
      }
      var c := new ServiceComponent(componentName, imageName, exposedPort, isStateful, isEntryComponent,
                                    entryPort, environmentVariables, entrypoint, addMountSrc, addMountTgt);
      return Success(c);
    }

    function GetComponentName(): string
    {
      componentName
    }

    function GetImageName(): string
    {
      imageName
    }

    function GetExposedPort(): Option<Int32>
    {
      exposedPort
    }

    function IsStateful(): bool
      reads this
    {
      isStateful
    }

    /** Changes the one mutable field; every other field is final, so `Valid()` is kept. */
    method SetIsStateful(isStateful: bool)
      modifies this`isStateful
      ensures IsStateful() == isStateful
    {
      this.isStateful := isStateful;
    }

    function IsEntryComponent(): bool
    {
      isEntryComponent
    }

    /** Present for the entry component of any component that construction let through. */
    function GetEntryPort(): (port: Option<Int32>)
      ensures Valid() && IsEntryComponent() ==> port.Some?
    {
      entryPort
    }

    function GetEntrypoint(): string
    {
      entrypoint
    }

    function GetAddMountSrc(): string
    {
      addMountSrc
    }

    function GetAddMountTgt(): string
    {
      addMountTgt
    }

    function GetEnvironmentVariables(): map<string, string>
    {
      environmentVariables
    }
  }
}
